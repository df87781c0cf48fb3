/** The intrusive circular doubly linked queues on the heap: the pointer macros, and the
    loops of the engine that delete while they walk, insert from the tail and move nodes
    from one queue to another. */
module Queue {
  import opened Words
  import opened Segments
  import Fragments
  import Retransmit
  import Schedule
  import E = Engine
  import S = SendWindow
  import R = RecvWindow

  /** `IQUEUEHEAD` with the segment it is embedded in; a list head has a segment nobody reads. */
  class Node {
    var next: Node?
    var prev: Node?
    var seg: Segment

    // `iqueue_init`.
    constructor (s: Segment)
      ensures next == this && prev == this && seg == s
    {
      next, prev, seg := this, this, s;
    }
  }

  // The nodes of |ring|, its head first, are linked both ways into one circle.
  ghost predicate Linked(ring: seq<Node>)
    reads ring
  {
    && ring != []
    && (forall i, j {:trigger ring[i], ring[j]} :: 0 <= i < j < |ring| ==> ring[i] != ring[j])
    && (forall i {:trigger ring[i].next} :: 0 <= i < |ring| ==>
          ring[i].next == if i + 1 < |ring| then ring[i + 1] else ring[0])
    && (forall i {:trigger ring[i].prev} :: 0 <= i < |ring| ==>
          ring[i].prev == if i == 0 then ring[|ring| - 1] else ring[i - 1])
  }

  lemma Neighbours(ring: seq<Node>, k: nat)
    requires Linked(ring) && k < |ring|
    ensures ring[k] in ring && ring[k].next in ring && ring[k].prev in ring
  {
  }

  ghost function With(ring: seq<Node>, k: nat, node: Node): seq<Node>
    requires k < |ring|
  {
    ring[..k + 1] + [node] + ring[k + 1..]
  }

  ghost function Less(ring: seq<Node>, k: nat): seq<Node>
    requires k < |ring|
  {
    ring[..k] + ring[k + 1..]
  }

  // `IQUEUE_ADD`: links |node| in behind |at|.
  method AddBehind(node: Node, at: Node, ghost ring: seq<Node>, ghost k: nat)
    requires Linked(ring) && node !in ring
    requires k < |ring| && at == ring[k]
    modifies node`next, node`prev, at`next, at.next`prev
    ensures Linked(With(ring, k, node))
  {
    node.prev, node.next := at, at.next;
    at.next.prev := node;
    at.next := node;
  }

  // `IQUEUE_ADD_TAIL`: links |node| in before the head.
  method AddTail(node: Node, head: Node, ghost ring: seq<Node>)
    requires Linked(ring) && node !in ring && head == ring[0]
    modifies node`next, node`prev, head`prev, head.prev`next
    ensures Linked(ring + [node])
  {
    node.prev, node.next := head.prev, head;
    head.prev.next := node;
    head.prev := node;
  }

  // `IQUEUE_DEL`: unlinks |entry| and clears its pointers.
  method Del(entry: Node, ghost ring: seq<Node>, ghost k: nat)
    requires Linked(ring) && 1 <= k < |ring| && entry == ring[k]
    modifies entry`next, entry`prev, entry.next`prev, entry.prev`next
    ensures Linked(Less(ring, k))
    ensures entry.next == null && entry.prev == null
  {
    entry.next.prev := entry.prev;
    entry.prev.next := entry.next;
    entry.next, entry.prev := null, null;
  }

  ghost function SegsOf(ring: seq<Node>): (s: seq<Segment>)
    requires ring != []
    reads ring
    ensures |s| == |ring| - 1
  {
    seq(|ring| - 1, i requires 0 <= i < |ring| - 1 reads ring => ring[i + 1].seg)
  }

  // A walk of `ikcp_parse_fastack` over |s| that has passed |k| segments leaves |now|.
  ghost predicate Skipped(s: seq<Segment>, now: seq<Segment>, k: nat, sn: u32) {
    && |now| == |s| && k <= |s|
    && (forall j :: 0 <= j < k ==> Diff(sn, s[j].sn) >= 0)
    && (forall j :: 0 <= j < |s| ==> now[j] == if j < k && s[j].sn != sn then S.Bumped(s[j]) else s[j])
  }

  lemma SkipStep(s: seq<Segment>, now: seq<Segment>, k: nat, sn: u32)
    requires Skipped(s, now, k, sn) && k < |s|
    ensures now[k] == s[k]
    ensures Diff(sn, s[k].sn) < 0 ==> now == S.ScanSkip(s, sn)
    ensures Diff(sn, s[k].sn) >= 0 ==>
              Skipped(s, if sn != s[k].sn then now[k := S.Bumped(now[k])] else now, k + 1, sn)
  {
    if Diff(sn, s[k].sn) < 0 { S.ScanSkipStops(s, sn, k); }
  }

  /** A list head with its counter (`snd_buf`/`nsnd_buf`, and so for `snd_queue`, `rcv_buf`, `rcv_queue`). */
  class List {
    const head: Node
    var count: nat
    ghost var ring: seq<Node>

    ghost predicate Valid()
      reads this, Nodes()
    {
      Linked(ring) && ring[0] == head && count == |ring| - 1
    }

    // The nodes of the ring.
    ghost function Nodes(): set<Node>
      reads this
    {
      set n | n in ring
    }

    ghost function Segs(): (s: seq<Segment>)
      requires ring != []
      reads this, Nodes()
    {
      SegsOf(ring)
    }

    // The |k|-th stop of a walk from the head; the last one is the head again.
    ghost function At(k: nat): Node
      requires k <= |ring|
      reads this
    {
      if k < |ring| then ring[k] else head
    }

    constructor (s: Segment)
      ensures Valid() && fresh(head) && ring == [head] && Segs() == []
    {
      var h := new Node(s);
      head, count, ring := h, 0, [h];
    }

    // `iqueue_add` behind |at|, and the counter.
    method Link(node: Node, at: Node, ghost k: nat)
      requires Valid() && node !in ring && k < |ring| && at == ring[k]
      modifies this`count, this`ring, node`next, node`prev, at`next, at.next`prev
      ensures Valid() && ring == old(With(ring, k, node))
      ensures Segs() == old(Segs()[..k] + [node.seg] + Segs()[k..])
    {
      AddBehind(node, at, ring, k);
      ring, count := With(ring, k, node), count + 1;
    }

    // `iqueue_add_tail`, and the counter.
    method LinkTail(node: Node)
      requires Valid() && node !in ring
      modifies this`count, this`ring, node`next, node`prev, head`prev, head.prev`next
      ensures Valid() && ring == old(ring) + [node]
      ensures Segs() == old(Segs() + [node.seg])
    {
      AddTail(node, head, ring);
      ring, count := ring + [node], count + 1;
    }

    // `iqueue_del`, and the counter.
    method Unlink(entry: Node, ghost k: nat)
      requires Valid() && 1 <= k < |ring| && entry == ring[k]
      modifies this`count, this`ring, entry`next, entry`prev, entry.next`prev, entry.prev`next
      ensures Valid() && ring == old(Less(ring, k))
      ensures Segs() == old(Segs()[..k - 1] + Segs()[k..])
    {
      Del(entry, ring, k);
      ring, count := Less(ring, k), count - 1;
    }

    // `iqueue_del` of the first node, and the counter.
    method Drop(entry: Node)
      requires Valid() && |ring| > 1 && entry == ring[1]
      modifies this`count, this`ring, entry`next, entry`prev, entry.next`prev, entry.prev`next
      ensures Valid() && ring == old(Less(ring, 1)) && Segs() == old(Segs())[1..]
      ensures Nodes() <= old(Nodes())
    {
      ghost var s := Segs();
      assert s[..0] + s[1..] == s[1..];
      Unlink(entry, 1);
    }

    // `ikcp_parse_una`: deletes while it walks.
    method ParseUna(una: u32)
      requires Valid()
      modifies this, Nodes()
      ensures Valid() && Segs() == S.DropBelow(old(Segs()), una)
      ensures Nodes() <= old(Nodes())
    {
      var p := head.next;
      while p != head
        invariant Valid() && p == head.next
        invariant Nodes() <= old(Nodes())
        invariant S.DropBelow(Segs(), una) == S.DropBelow(old(Segs()), una)
        decreases count
      {
        Neighbours(ring, 1);
        var next := p.next;
        if Diff(una, p.seg.sn) <= 0 { break; }
        Drop(p);
        p := next;
      }
    }

    // The walk of `ikcp_parse_ack` over `snd_buf`.
    method ParseAck(sn: u32)
      requires Valid()
      modifies this, Nodes()
      ensures Valid() && Segs() == S.ScanAck(old(Segs()), sn)
      ensures Nodes() <= old(Nodes())
    {
      var p := head.next;
      ghost var s, k := Segs(), 1;
      while p != head
        invariant Valid() && ring == old(ring) && Segs() == s
        invariant 1 <= k <= |ring| && p == At(k)
        invariant forall j :: 0 <= j < k - 1 ==> s[j].sn != sn && Diff(sn, s[j].sn) >= 0
        decreases |ring| - k
      {
        Neighbours(ring, k);
        assert p.seg == s[k - 1];
        var next := p.next;
        if sn == p.seg.sn {
          Unlink(p, k);
          break;
        }
        if Diff(sn, p.seg.sn) < 0 { break; }
        p, k := next, k + 1;
      }
      S.ScanAckStops(s, sn, k - 1);
    }

    // The walk of `ikcp_parse_fastack` over `snd_buf`: counts skips in place.
    method ParseFastAck(sn: u32)
      requires Valid()
      modifies Nodes()
      ensures Valid() && ring == old(ring) && Segs() == S.ScanSkip(old(Segs()), sn)
    {
      var p := head.next;
      ghost var s, k := Segs(), 1;
      while p != head
        invariant Valid() && ring == old(ring) && Skipped(s, Segs(), k - 1, sn)
        invariant 1 <= k <= |ring| && p == At(k)
        decreases |ring| - k
      {
        Neighbours(ring, k);
        SkipStep(s, Segs(), k - 1, sn);
        var next := p.next;
        if Diff(sn, p.seg.sn) < 0 { return; }
        if sn != p.seg.sn { Put(p, p.seg.(fastack := Words.Add(p.seg.fastack, 1)), k); }
        p, k := next, k + 1;
      }
      S.ScanSkipStops(s, sn, |s|);
    }

    // Assigns to the fields of the segment |entry| is embedded in.
    method Put(entry: Node, s: Segment, ghost k: nat)
      requires Valid() && 1 <= k < |ring| && entry == ring[k]
      modifies entry`seg
      ensures Valid() && Segs() == old(Segs())[k - 1 := s]
    {
      entry.seg := s;
    }

    // The insertion of `ikcp_parse_data` into `rcv_buf`: looks for the place from the tail.
    method Insert(node: Node)
      requires Valid() && node !in ring
      modifies this, Nodes(), node
      ensures Valid() && Segs() == R.Insert(old(Segs()), old(node.seg))
      ensures Nodes() <= old(Nodes()) + {node}
    {
      var p := head.prev;
      var repeat := false;
      ghost var s, k := Segs(), |ring| - 1;
      while p != head
        invariant Valid() && ring == old(ring) && Segs() == s && node.seg == old(node.seg)
        invariant 0 <= k < |ring| && p == ring[k] && !repeat
        invariant forall j :: k <= j < |s| ==> s[j].sn != node.seg.sn && Diff(node.seg.sn, s[j].sn) <= 0
        decreases k
      {
        assert p.seg == s[k - 1];
        var prev := p.prev;
        if p.seg.sn == node.seg.sn { repeat := true; break; }
        if Diff(node.seg.sn, p.seg.sn) > 0 { break; }
        p, k := prev, k - 1;
      }
      R.InsertStops(s, node.seg, k);
      if !repeat {
        Neighbours(ring, k);
        Link(node, p, k);
      }
    }

    // `ikcp_segment_new` and `iqueue_add_tail`, with the counter.
    method Append(s: Segment) returns (node: Node)
      requires Valid()
      modifies this`count, this`ring, head`prev, head.prev`next
      ensures Valid() && fresh(node) && ring == old(ring) + [node]
      ensures Segs() == old(Segs()) + [s]
    {
      node := new Node(s);
      Neighbours(ring, 0);
      LinkTail(node);
    }

    // `ikcp_send` in stream mode: a new segment goes behind the last one, which is then taken
    // out; the counter stays.
    method ReplaceTail(s: Segment) returns (node: Node)
      requires Valid() && |ring| > 1
      modifies this`ring, head`prev, head.prev, head.prev.prev`next
      ensures Valid() && fresh(node) && ring == old(ring[..|ring| - 1]) + [node]
      ensures Segs() == old(Segs()[..|ring| - 2]) + [s]
    {
      node := new Node(s);
      Supersede(node, head.prev);
    }

    // `iqueue_add_tail` of |node|, then `iqueue_del_init` of |last|.
    method Supersede(node: Node, last: Node)
      requires Valid() && |ring| > 1 && node !in ring && last == ring[|ring| - 1]
      modifies this`ring, node, head`prev, last, last.prev`next
      ensures Valid() && ring == old(ring[..|ring| - 1]) + [node] && node.seg == old(node.seg)
      ensures Segs() == old(Segs()[..|ring| - 2]) + [node.seg]
    {
      Neighbours(ring, |ring| - 1);
      ghost var k, all := |ring| - 1, ring + [node];
      AddTail(node, head, ring);
      assert all[k] == last && all[k + 1] == node && all[k - 1] == ring[k - 1];
      Del(last, all, k);
      last.next, last.prev := last, last;
      ring := ring[..k] + [node];
      assert ring == Less(all, k);
    }

    // Appends piece |i| of |all|.
    method AppendPiece(s: Segment, ghost q: seq<Segment>, ghost all: seq<Segment>, ghost i: nat)
      requires Valid() && i < |all| && s == all[i] && Segs() == q + all[..i]
      modifies this, Nodes()
      ensures Valid() && fresh(Nodes() - old(Nodes())) && Segs() == q + all[..i + 1]
    {
      Neighbours(ring, 0);
      var node := Append(s);
      assert q + all[..i] + [all[i]] == q + all[..i + 1];
    }

    // The tail of `ikcp_send`: counts the pieces, refuses too many, appends them one by one.
    method AppendPieces(rest: seq<byte>, mss: u32, stream: bool) returns (code: int)
      requires Valid() && mss > 0
      modifies this, Nodes()
      ensures Valid() && fresh(Nodes() - old(Nodes()))
      ensures Fragments.Sent(Segs(), code) == Fragments.Append(old(Segs()), mss, stream, rest)
    {
      var pieces := if |rest| <= mss then 1 else (|rest| + mss - 1) / mss;
      ghost var q, c := Segs(), Fragments.Chop(rest, mss);
      Fragments.ChopCount(rest, mss);
      if pieces >= WND_RCV { return -2; }
      ghost var all := Fragments.FreshAll(Fragments.Numbered(c, stream));
      var left := rest;
      assert q == q + all[..0];
      for i := 0 to pieces
        invariant Valid() && fresh(Nodes() - old(Nodes())) && Segs() == q + all[..i]
        invariant i < pieces ==> c[i..] == Fragments.Chop(left, mss)
      {
        var size := if |left| > mss then mss else |left|;
        assert c[i] == c[i..][0] == left[..size];
        assert c[i..][1..] == c[i + 1..];
        AppendPiece(Fragments.Fresh(Frag(if stream then 0 else pieces - i - 1, left[..size])), q, all, i);
        left := left[size..];
      }
      assert all[..pieces] == all;
      return 0;
    }

    // `ikcp_send` over `snd_queue`.
    method Send(m: seq<byte>, mss: u32, stream: bool) returns (code: int)
      requires Valid() && mss > 0
      modifies this, Nodes()
      ensures Valid() && fresh(Nodes() - old(Nodes()))
      ensures Fragments.Sent(Segs(), code) == Fragments.Send(old(Segs()), mss, stream, m)
    {
      var rest := m;
      if stream {
        rest := TopUp(m, mss);
        if rest == [] { return 0; }
      }
      code := AppendPieces(rest, mss, stream);
    }

    // Fills up the last segment from the front of |m|.
    method TopUp(m: seq<byte>, mss: u32) returns (rest: seq<byte>)
      requires Valid()
      modifies this, Nodes()
      ensures Valid() && fresh(Nodes() - old(Nodes()))
      ensures Segs() == Fragments.ToppedUp(old(Segs()), mss, m)
      ensures rest == m[Fragments.TopUp(old(Segs()), mss, m)..]
    {
      rest := m;
      if head.next != head {
        var last := head.prev.seg;
        Neighbours(ring, |ring| - 1);
        assert last == Segs()[|Segs()| - 1];
        if |last.data| < mss {
          var capacity := mss - |last.data|;
          var extend := if |m| < capacity then |m| else capacity;
          var node := ReplaceTail(Fragments.Fresh(Frag(0, last.data + m[..extend])));
          rest := m[extend..];
        }
      }
    }

    // `ikcp_peeksize` over `rcv_queue`.
    method PeekSize() returns (size: int)
      requires Valid()
      ensures size == Fragments.PeekSize(FragsOf(Segs()))
    {
      ghost var fs := FragsOf(Segs());
      if head.next == head { return -1; }
      var first := head.next;
      assert first.seg == Segs()[0];
      if first.seg.frg == 0 { return |first.seg.data|; }
      if count < first.seg.frg + 1 { return -1; }
      size := 0;
      var p := head.next;
      ghost var k, bytes := 0, [];
      Fragments.MergingStart(fs);
      Fragments.MergeLength(fs);
      while p != head
        invariant k < |ring| && p == At(k + 1)
        invariant size == |bytes| && Fragments.Merging(fs, k, bytes)
        decreases |ring| - k
      {
        assert fs[k] == FragOf(p.seg);
        Fragments.MergeStep(fs, k, bytes);
        size, bytes := size + |p.seg.data|, bytes + p.seg.data;
        if p.seg.frg == 0 { return; }
        p, k := p.next, k + 1;
      }
      Fragments.MergeEnd(fs, bytes);
    }

    // After |k| segments of |s|: all still there when peeking, else the rest.
    ghost predicate Left(s: seq<Segment>, k: nat, peek: bool)
      requires ring != []
      reads this, Nodes()
    {
      var now := Segs();
      if peek then now == s
      else |now| == |s| - k && forall j {:trigger now[j]} :: 0 <= j < |now| ==> now[j] == s[k + j]
    }

    // Steps past |entry|, deleting it unless peeking.
    method Pass(entry: Node, peek: bool, ghost s: seq<Segment>, ghost k: nat) returns (next: Node)
      requires Valid() && k < |s| && Left(s, k, peek) && entry == At(if peek then k + 1 else 1)
      modifies this`count, this`ring, entry`next, entry`prev, entry.next`prev, entry.prev`next
      ensures Valid() && Left(s, k + 1, peek) && next == At(if peek then k + 2 else 1)
      ensures Nodes() <= old(Nodes())
    {
      next := entry.next;
      if !peek { Drop(entry); }
    }

    // The merge loop of `ikcp_recv` over `rcv_queue`: unless peeking, deletes while it walks.
    method Merge(peek: bool) returns (bytes: seq<byte>)
      requires Valid()
      modifies this, Nodes()
      ensures Valid() && Nodes() <= old(Nodes())
      ensures var n := Fragments.MergeCount(FragsOf(old(Segs())));
              && bytes == Fragments.Join(FragsOf(old(Segs()))[..n])
              && Left(old(Segs()), n, peek)
    {
      ghost var s, k := Segs(), 0;
      ghost var fs := FragsOf(s);
      bytes := [];
      var p := head.next;
      Fragments.MergingStart(fs);
      while p != head
        invariant Valid() && Nodes() <= old(Nodes())
        invariant k <= |s| && Left(s, k, peek) && p == At(if peek then k + 1 else 1)
        invariant Fragments.Merging(fs, k, bytes)
        decreases |s| - k
      {
        Neighbours(ring, if peek then k + 1 else 1);
        var seg := p.seg;
        assert seg == Segs()[if peek then k else 0] == s[k];
        Fragments.MergeStep(fs, k, bytes);
        bytes := bytes + seg.data;
        p := Pass(p, peek, s, k);
        if seg.frg == 0 { return; }
        k := k + 1;
      }
      Fragments.MergeEnd(fs, bytes);
    }

    // The loop of `ikcp_flush` over `snd_buf`: every segment has its turn, in place.
    method Visit(p: Retransmit.Policy) returns (turns: seq<Retransmit.Turn>)
      requires Valid()
      modifies Nodes()
      ensures Valid() && ring == old(ring)
      ensures turns == Retransmit.Attempts(old(Segs()), p) && Segs() == Retransmit.Segs(turns)
    {
      ghost var s, k := Segs(), 1;
      turns := [];
      var entry := head.next;
      while entry != head
        invariant Valid() && ring == old(ring) && 1 <= k <= |ring| && entry == At(k)
        invariant |turns| == k - 1 && forall j :: 0 <= j < k - 1 ==> turns[j] == Retransmit.Attempt(s[j], p)
        invariant forall j :: 0 <= j < |s| ==> Segs()[j] == if j < k - 1 then turns[j].seg else s[j]
        decreases |ring| - k
      {
        Neighbours(ring, k);
        assert entry.seg == Segs()[k - 1];
        var t := Retransmit.Attempt(entry.seg, p);
        Put(entry, t.seg, k);
        turns := turns + [t];
        entry, k := entry.next, k + 1;
      }
    }

    // The loop of `ikcp_check` over `snd_buf`: the time to the next retransmission, 0 when one is due.
    method NextDue(now: u32) returns (wait: nat)
      requires Valid()
      ensures wait == Schedule.PacketWait(E.Deadlines(Segs()), now)
    {
      ghost var all, k := E.Deadlines(Segs()), 0;
      wait := 0x7fff_ffff;
      var p := head.next;
      assert all[0..] == all;
      while p != head
        invariant k < |ring| && p == At(k + 1) && 0 < wait <= 0x7fff_ffff
        invariant Schedule.Least(wait, Schedule.PacketWait(all[k..], now)) == Schedule.PacketWait(all, now)
        decreases |ring| - k
      {
        assert all[k] == p.seg.resendts && all[k..][0] == all[k] && all[k..][1..] == all[k + 1..];
        var diff := Diff(p.seg.resendts, now);
        if diff <= 0 { return 0; }
        if diff < wait { wait := diff; }
        p, k := p.next, k + 1;
      }
    }

    // `ikcp_release`: deletes from the front until the list is empty.
    method Clear()
      requires Valid()
      modifies this, Nodes()
      ensures Valid() && Segs() == [] && count == 0
      ensures Nodes() <= old(Nodes())
    {
      while head != head.next
        invariant Valid() && Nodes() <= old(Nodes())
        decreases count
      {
        Neighbours(ring, 1);
        Drop(head.next);
      }
    }
  }

  ghost predicate Apart(a: List, b: List)
    reads a, b
  {
    a != b && forall n :: n in a.ring ==> n !in b.ring
  }

  lemma ApartNodes(a: List, b: List)
    ensures Apart(a, b) <==> a != b && a.Nodes() !! b.Nodes()
  {
    if a.Nodes() !! b.Nodes() {
      forall n | n in a.ring ensures n !in b.ring { assert n in a.Nodes(); }
    }
  }

  // One turn of the loop of `MoveAvailable`.
  method MoveOne(buf: List, queue: List)
    requires buf.Valid() && queue.Valid() && Apart(buf, queue) && buf.count > 0
    modifies buf`count, buf`ring, queue`count, queue`ring
    modifies buf.ring[1], buf.ring[1].next, buf.head, queue.head, queue.head.prev
    ensures buf.Valid() && queue.Valid() && Apart(buf, queue)
    ensures buf.ring == old(Less(buf.ring, 1)) && queue.ring == old(queue.ring + [buf.ring[1]])
    ensures buf.Segs() == old(buf.Segs())[1..]
    ensures queue.Segs() == old(queue.Segs() + [buf.Segs()[0]])
  {
    Neighbours(buf.ring, 1);
    Neighbours(queue.ring, 0);
    var node := buf.head.next;
    buf.Drop(node);
    queue.LinkTail(node);
  }

  // The loop that ends `ikcp_parse_data`: nodes in order go from `rcv_buf` to `rcv_queue`.
  method MoveAvailable(buf: List, queue: List, nxt: u32, wnd: u32, ghost acks: seq<R.Ack>) returns (now: u32)
    requires buf.Valid() && queue.Valid() && Apart(buf, queue)
    modifies buf, queue, buf.Nodes(), queue.Nodes()
    ensures buf.Valid() && queue.Valid() && Apart(buf, queue)
    ensures buf.Nodes() <= old(buf.Nodes())
    ensures queue.Nodes() <= old(buf.Nodes() + queue.Nodes())
    ensures R.Drain(R.Rcv(nxt, old(buf.Segs()), old(queue.Segs()), acks), wnd)
         == R.Rcv(now, buf.Segs(), queue.Segs(), acks)
  {
    now := nxt;
    ghost var r := R.Rcv(nxt, buf.Segs(), queue.Segs(), acks);
    while buf.head != buf.head.next
      invariant buf.Valid() && queue.Valid() && Apart(buf, queue)
      invariant buf.Nodes() <= old(buf.Nodes())
      invariant queue.Nodes() <= old(buf.Nodes() + queue.Nodes())
      invariant R.Drain(r, wnd) == R.Drain(R.Rcv(now, buf.Segs(), queue.Segs(), acks), wnd)
      decreases buf.count
    {
      var seg := buf.head.next.seg;
      if seg.sn != now || queue.count >= wnd { break; }
      Neighbours(buf.ring, 1);
      Neighbours(queue.ring, 0);
      MoveOne(buf, queue);
      now := Words.Add(now, 1);
    }
  }

  // One turn of the loop of `MoveQueue`.
  method AdmitOne(queue: List, buf: List, st: S.Stamp, sn: u32)
    requires queue.Valid() && buf.Valid() && Apart(queue, buf) && queue.count > 0
    modifies queue`count, queue`ring, buf`count, buf`ring
    modifies queue.ring[1], queue.ring[1].next, queue.head, buf.head, buf.head.prev
    ensures queue.Valid() && buf.Valid() && Apart(queue, buf)
    ensures queue.ring == old(Less(queue.ring, 1)) && buf.ring == old(buf.ring + [queue.ring[1]])
    ensures queue.Segs() == old(queue.Segs())[1..]
    ensures buf.Segs() == old(buf.Segs()) + [S.Admit(old(queue.Segs())[0], st, sn)]
  {
    ghost var k := |buf.ring|;
    MoveOne(queue, buf);
    var node := buf.head.prev;
    assert node == buf.ring[k] && node.seg == buf.Segs()[k - 1];
    buf.Put(node, S.Admit(node.seg, st, sn), k);
  }

  // The loop of `ikcp_flush` that admits segments: nodes go from `snd_queue` to `snd_buf`, and are stamped there.
  method MoveQueue(queue: List, buf: List, una: u32, nxt: u32, window: u32, st: S.Stamp) returns (now: u32)
    requires queue.Valid() && buf.Valid() && Apart(queue, buf)
    modifies queue, buf, queue.Nodes(), buf.Nodes()
    ensures queue.Valid() && buf.Valid() && Apart(queue, buf)
    ensures queue.Nodes() <= old(queue.Nodes())
    ensures buf.Nodes() <= old(queue.Nodes() + buf.Nodes())
    ensures S.Move(S.Snd(una, nxt, old(queue.Segs()), old(buf.Segs())), window, st)
         == S.Snd(una, now, queue.Segs(), buf.Segs())
  {
    now := nxt;
    ghost var s := S.Snd(una, nxt, queue.Segs(), buf.Segs());
    while Diff(now, Add(una, window)) < 0
      invariant queue.Valid() && buf.Valid() && Apart(queue, buf)
      invariant queue.Nodes() <= old(queue.Nodes())
      invariant buf.Nodes() <= old(queue.Nodes() + buf.Nodes())
      invariant S.Move(s, window, st) == S.Move(S.Snd(una, now, queue.Segs(), buf.Segs()), window, st)
      decreases queue.count
    {
      if queue.head == queue.head.next { break; }
      Neighbours(queue.ring, 1);
      Neighbours(buf.ring, 0);
      AdmitOne(queue, buf, st, now);
      now := Add(now, 1);
    }
  }
}
