/** The receiver's half of the sliding window: `rcv_buf` from `rcv_nxt` up to `rcv_nxt + rcv_wnd`,
    the in-order queue behind it, and the list of acknowledgements still to be sent. */
module RecvWindow {
  import opened Words
  import opened Segments
  import opened Codec
  import opened Fragments

  /** One entry of `acklist`. */
  datatype Ack = Ack(sn: u32, ts: u32)

  datatype Rcv = Rcv(nxt: u32, buf: seq<Segment>, queue: seq<Segment>, acks: seq<Ack>)

  // Serial numbers in `buf` lie in the window, strictly increasing.
  ghost predicate Sorted(nxt: u32, wnd: u32, buf: seq<Segment>) {
    && (forall i {:trigger buf[i]} :: 0 <= i < |buf| ==> Dist(nxt, buf[i].sn) < wnd)
    && (forall i, j {:trigger buf[i], buf[j]} :: 0 <= i < j < |buf| ==> Dist(nxt, buf[i].sn) < Dist(nxt, buf[j].sn))
  }

  ghost predicate RcvInv(r: Rcv, wnd: u32) {
    && Sorted(r.nxt, wnd, r.buf)
    && |r.queue| <= wnd
    && (r.buf != [] && r.buf[0].sn == r.nxt ==> |r.queue| == wnd)
  }

  // The window test of `ikcp_parse_data`.
  predicate InWindow(nxt: u32, wnd: u32, sn: u32) {
    Diff(sn, Add(nxt, wnd)) < 0 && Diff(sn, nxt) >= 0
  }

  // Scan from the tail for the place of `s`; a segment with the same serial number wins over it.
  function Insert(buf: seq<Segment>, s: Segment): seq<Segment> {
    if buf == [] then [s]
    else
      var last := buf[|buf| - 1];
      if last.sn == s.sn then buf
      else if Diff(s.sn, last.sn) > 0 then buf + [s]
      else Insert(buf[..|buf| - 1], s) + [last]
  }

  // Where the tail scan of `ikcp_parse_data` stops, and what it does there.
  lemma {:induction false} InsertStops(buf: seq<Segment>, s: Segment, k: nat)
    requires k <= |buf| && forall j :: k <= j < |buf| ==> buf[j].sn != s.sn && Diff(s.sn, buf[j].sn) <= 0
    ensures k > 0 && buf[k - 1].sn == s.sn ==> Insert(buf, s) == buf
    ensures k == 0 || (buf[k - 1].sn != s.sn && Diff(s.sn, buf[k - 1].sn) > 0) ==>
              Insert(buf, s) == buf[..k] + [s] + buf[k..]
    decreases |buf| - k
  {
    if k < |buf| {
      var front := buf[..|buf| - 1];
      InsertStops(front, s, k);
      FrontLast(buf, k, s);
    }
  }

  lemma FrontLast(buf: seq<Segment>, k: nat, s: Segment)
    requires k < |buf|
    ensures var front, last := buf[..|buf| - 1], buf[|buf| - 1];
            && front + [last] == buf && front[..k] + [s] + front[k..] + [last] == buf[..k] + [s] + buf[k..]
  {
  }

  // One turn of the drain loop.
  function Shift(r: Rcv): Rcv
    requires r.buf != []
  {
    r.(nxt := Add(r.nxt, 1), buf := r.buf[1..], queue := r.queue + [r.buf[0]])
  }

  // Move what is in order to the queue while the queue has room.
  function Drain(r: Rcv, wnd: u32): Rcv
    decreases |r.buf|
  {
    if r.buf != [] && r.buf[0].sn == r.nxt && |r.queue| < wnd then
      Drain(Shift(r), wnd)
    else r
  }

  // `ikcp_parse_data`.
  function ParseData(r: Rcv, wnd: u32, s: Segment): Rcv {
    if InWindow(r.nxt, wnd, s.sn) then Drain(r.(buf := Insert(r.buf, s)), wnd) else r
  }

  function FromWire(w: Wire): Segment {
    Segment(w.conv, w.cmd, w.frg, w.wnd, w.ts, w.sn, w.una, 0, 0, 0, 0, w.data)
  }

  // The receiver's share of one received segment.
  function OnWire(r: Rcv, wnd: u32, w: Wire): Rcv {
    if w.cmd != CMD_PUSH || Diff(w.sn, Add(r.nxt, wnd)) >= 0 then r
    else
      var a := r.(acks := r.acks + [Ack(w.sn, w.ts)]);
      if Diff(w.sn, r.nxt) >= 0 then ParseData(a, wnd, FromWire(w)) else a
  }

  function OnWires(r: Rcv, wnd: u32, ws: seq<Wire>): Rcv
    decreases |ws|
  {
    if ws == [] then r else OnWires(OnWire(r, wnd, ws[0]), wnd, ws[1..])
  }

  // `ikcp_wnd_unused`.
  function Unused(r: Rcv, wnd: u32): u32 {
    if |r.queue| < wnd then wnd - |r.queue| else 0
  }

  /** Result of `ikcp_recv`: new state, return code, bytes written to the caller's buffer, and
      whether the window reopened. */
  datatype Received = Received(rcv: Rcv, code: int, bytes: Bytes, reopened: bool)

  // `ikcp_recv` with a buffer of |len| bytes; a negative `len` peeks.
  function Recv(r: Rcv, wnd: u32, len: int): Received {
    var fs := FragsOf(r.queue);
    var size := PeekSize(fs);
    if r.queue == [] then Received(r, -1, [], false)
    else if size < 0 then Received(r, -2, [], false)
    else if size > (if len < 0 then -len else len) then Received(r, -3, [], false)
    else
      var n := MergeCount(fs);
      var bytes := Join(fs[..n]);
      var t := Drain(if len < 0 then r else r.(queue := r.queue[n..]), wnd);
      Received(t, |bytes|, bytes, |t.queue| < wnd && |r.queue| >= wnd)
  }

  // ---- wrapped comparisons are exact in the window ----

  // The two wrapped comparisons together admit exactly the serial numbers of the window.
  lemma InWindowExact(nxt: u32, wnd: u32, sn: u32)
    requires wnd < 0x8000_0000
    ensures InWindow(nxt, wnd, sn) <==> Dist(nxt, sn) < wnd
  {
  }

  lemma OrderExact(nxt: u32, a: u32, b: u32)
    requires Dist(nxt, a) < 0x8000_0000 && Dist(nxt, b) < 0x8000_0000
    ensures Diff(a, b) == Dist(nxt, a) - Dist(nxt, b)
  {
  }

  // ---- invariant for any bytes ----

  lemma {:induction false} InsertMembers(buf: seq<Segment>, s: Segment)
    ensures forall t :: t in Insert(buf, s) ==> t in buf || t == s
    ensures forall t :: t in buf ==> t in Insert(buf, s)
    ensures |buf| <= |Insert(buf, s)| <= |buf| + 1
  {
    if buf != [] {
      var front, last := buf[..|buf| - 1], buf[|buf| - 1];
      assert buf == front + [last];
      if last.sn != s.sn && Diff(s.sn, last.sn) <= 0 { InsertMembers(front, s); }
    }
  }

  lemma SortedSnoc(nxt: u32, wnd: u32, front: seq<Segment>, last: Segment)
    requires Sorted(nxt, wnd, front) && Dist(nxt, last.sn) < wnd
    requires forall t :: t in front ==> Dist(nxt, t.sn) < Dist(nxt, last.sn)
    ensures Sorted(nxt, wnd, front + [last])
  {
  }

  lemma SortedFront(nxt: u32, wnd: u32, front: seq<Segment>, last: Segment)
    requires Sorted(nxt, wnd, front + [last])
    ensures Sorted(nxt, wnd, front) && Dist(nxt, last.sn) < wnd
    ensures forall t :: t in front ==> Dist(nxt, t.sn) < Dist(nxt, last.sn)
  {
    var buf := front + [last];
    assert buf[|front|] == last && forall i :: 0 <= i < |front| ==> buf[i] == front[i];
  }

  // Insertion keeps the buffer sorted and duplicate free.
  lemma {:induction false} InsertSorted(nxt: u32, wnd: u32, buf: seq<Segment>, s: Segment)
    requires wnd < 0x8000_0000 && Sorted(nxt, wnd, buf) && Dist(nxt, s.sn) < wnd
    ensures Sorted(nxt, wnd, Insert(buf, s))
  {
    if buf == [] {
      SortedSnoc(nxt, wnd, [], s);
    } else {
      var front, last := buf[..|buf| - 1], buf[|buf| - 1];
      assert buf == front + [last];
      SortedFront(nxt, wnd, front, last);
      OrderExact(nxt, s.sn, last.sn);
      if last.sn == s.sn {
      } else if Diff(s.sn, last.sn) > 0 {
        SortedSnoc(nxt, wnd, buf, s);
      } else {
        InsertSorted(nxt, wnd, front, s);
        InsertMembers(front, s);
        SortedSnoc(nxt, wnd, Insert(front, s), last);
      }
    }
  }

  // Afterwards the serial number is there: carried by `s` itself unless it was there before.
  lemma {:induction false} InsertPresent(buf: seq<Segment>, s: Segment)
    ensures s in Insert(buf, s) || exists t :: t in buf && t.sn == s.sn
  {
    if buf != [] {
      var front, last := buf[..|buf| - 1], buf[|buf| - 1];
      if last.sn == s.sn {
        assert last in buf;
      } else if Diff(s.sn, last.sn) <= 0 {
        InsertPresent(front, s);
        assert forall t :: t in front ==> t in buf;
      }
    }
  }

  // The window moves on by one: every other distance shrinks by one.
  lemma ShiftSorted(r: Rcv, wnd: u32)
    requires Sorted(r.nxt, wnd, r.buf) && r.buf != [] && r.buf[0].sn == r.nxt
    ensures Sorted(Shift(r).nxt, wnd, Shift(r).buf)
    ensures forall s :: s in Shift(r).buf ==> s in r.buf && Dist(Shift(r).nxt, s.sn) == Dist(r.nxt, s.sn) - 1
    ensures forall s :: s in r.buf ==> s == r.buf[0] || s in Shift(r).buf
  {
    var t := Shift(r);
    forall i | 0 <= i < |t.buf|
      ensures t.buf[i] == r.buf[i + 1] && Dist(t.nxt, t.buf[i].sn) == Dist(r.nxt, r.buf[i + 1].sn) - 1
    {
      assert Dist(r.nxt, r.buf[0].sn) < Dist(r.nxt, r.buf[i + 1].sn);
    }
  }

  lemma {:induction false} DrainKeeps(r: Rcv, wnd: u32)
    requires wnd < 0x8000_0000 && Sorted(r.nxt, wnd, r.buf) && |r.queue| <= wnd
    ensures RcvInv(Drain(r, wnd), wnd)
    ensures Drain(r, wnd).acks == r.acks
    decreases |r.buf|
  {
    if r.buf != [] && r.buf[0].sn == r.nxt && |r.queue| < wnd {
      ShiftSorted(r, wnd);
      DrainKeeps(Shift(r), wnd);
    }
  }

  // Whatever a received segment claims, the receive window stays well formed; data that is not
  // beyond the window is acknowledged, new or not.
  lemma OnWireKeeps(r: Rcv, wnd: u32, w: Wire)
    requires wnd < 0x8000_0000 && RcvInv(r, wnd)
    ensures RcvInv(OnWire(r, wnd, w), wnd)
    ensures OnWire(r, wnd, w).acks ==
            if w.cmd == CMD_PUSH && Diff(w.sn, Add(r.nxt, wnd)) < 0 then r.acks + [Ack(w.sn, w.ts)] else r.acks
  {
    var s := FromWire(w);
    InWindowExact(r.nxt, wnd, s.sn);
    if InWindow(r.nxt, wnd, s.sn) {
      InsertSorted(r.nxt, wnd, r.buf, s);
      var a := r.(acks := r.acks + [Ack(w.sn, w.ts)]);
      DrainKeeps(a.(buf := Insert(r.buf, s)), wnd);
    }
  }

  lemma {:induction false} OnWiresKeeps(r: Rcv, wnd: u32, ws: seq<Wire>)
    requires wnd < 0x8000_0000 && RcvInv(r, wnd)
    ensures RcvInv(OnWires(r, wnd, ws), wnd)
    decreases |ws|
  {
    if ws != [] {
      OnWireKeeps(r, wnd, ws[0]);
      OnWiresKeeps(OnWire(r, wnd, ws[0]), wnd, ws[1..]);
    }
  }

  lemma RecvKeeps(r: Rcv, wnd: u32, len: int)
    requires wnd < 0x8000_0000 && RcvInv(r, wnd)
    ensures RcvInv(Recv(r, wnd, len).rcv, wnd)
  {
    var n := MergeCount(FragsOf(r.queue));
    DrainKeeps(r, wnd);
    DrainKeeps(r.(queue := r.queue[n..]), wnd);
  }

  // Peeking changes nothing.
  lemma PeekIsPure(r: Rcv, wnd: u32, len: int)
    requires RcvInv(r, wnd) && len < 0
    ensures Recv(r, wnd, len).rcv == r && !Recv(r, wnd, len).reopened
  {
  }

  lemma {:induction false} Spread(nxt: u32, wnd: u32, buf: seq<Segment>, i: nat)
    requires Sorted(nxt, wnd, buf) && i < |buf|
    ensures Dist(nxt, buf[i].sn) >= i
  {
    if i > 0 { Spread(nxt, wnd, buf, i - 1); }
  }

  // At most twice the window is ever held.
  lemma MemoryBound(r: Rcv, wnd: u32)
    requires RcvInv(r, wnd)
    ensures |r.buf| <= wnd && |r.buf| + |r.queue| <= 2 * wnd
  {
    if r.buf != [] { Spread(r.nxt, wnd, r.buf, |r.buf| - 1); }
  }

  // ---- what a read answers ----

  // The first |k| segments of the buffer are numbered on from |nxt| without a gap.
  ghost predicate Follows(nxt: u32, buf: seq<Segment>, k: nat) {
    k <= |buf| && forall i :: 0 <= i < k ==> buf[i].sn == Wrap(nxt + i)
  }

  lemma FollowsCons(nxt: u32, buf: seq<Segment>, k: nat)
    requires buf != [] && buf[0].sn == nxt && Follows(Add(nxt, 1), buf[1..], k)
    ensures Follows(nxt, buf, k + 1) && Wrap(nxt + (k + 1)) == Wrap(Add(nxt, 1) + k)
  {
    WrapSmall(nxt);
    NextWrap(nxt, k);
    forall i | 0 < i <= k ensures buf[i].sn == Wrap(nxt + i) {
      assert buf[i] == buf[1..][i - 1];
      NextWrap(nxt, i - 1);
    }
  }

  lemma TakeOne(buf: seq<Segment>, queue: seq<Segment>, k: nat)
    requires k < |buf|
    ensures buf[1..][k..] == buf[k + 1..] && queue + [buf[0]] + buf[1..][..k] == queue + buf[..k + 1]
  {
  }

  // The drain moves the front of the buffer to the queue as far as it is numbered on from `nxt`
  // without a gap and the queue has room, and stops for no other reason.
  lemma {:induction false} DrainIs(r: Rcv, wnd: u32) returns (k: nat)
    ensures Follows(r.nxt, r.buf, k)
    ensures Drain(r, wnd) == Rcv(Wrap(r.nxt + k), r.buf[k..], r.queue + r.buf[..k], r.acks)
    ensures k == 0 || |r.queue| + k <= wnd
    ensures k == |r.buf| || r.buf[k].sn != Wrap(r.nxt + k) || |r.queue| + k >= wnd
    decreases |r.buf|
  {
    if r.buf != [] && r.buf[0].sn == r.nxt && |r.queue| < wnd {
      k := DrainIs(Shift(r), wnd);
      FollowsCons(r.nxt, r.buf, k);
      TakeOne(r.buf, r.queue, k);
      k := k + 1;
    } else {
      k := 0;
      WrapSmall(r.nxt);
      assert r.queue + r.buf[..0] == r.queue;
    }
  }

  lemma NextWrap(nxt: u32, i: nat)
    ensures Wrap(Add(nxt, 1) + i) == Wrap(nxt + (i + 1))
  {
    WrapSmall(nxt);
    AddWrap(nxt, 1);
    WrapPlus(nxt + 1, i);
  }

  // The first message of a queue takes |n| segments: up to the first fragment numbered 0, or all
  // of them when there is none.
  ghost predicate FirstMessage(q: seq<Segment>, n: nat) {
    && 1 <= n <= |q|
    && (forall i :: 0 <= i < n - 1 ==> q[i].frg != 0)
    && (q[n - 1].frg == 0 || n == |q|)
  }

  lemma FirstMessageIs(q: seq<Segment>, n: nat)
    requires FirstMessage(q, n)
    ensures MergeCount(FragsOf(q)) == n
  {
    MergeStops(FragsOf(q), if q[n - 1].frg == 0 then n - 1 else n);
  }

  lemma {:induction false} FirstMessageOf(q: seq<Segment>) returns (n: nat)
    requires q != []
    ensures FirstMessage(q, n)
  {
    if q[0].frg == 0 || |q| == 1 {
      n := 1;
    } else {
      n := FirstMessageOf(q[1..]);
      n := n + 1;
    }
  }

  // The answers of a read whose first message is the first |n| segments of the queue, for a buffer of
  // |room| bytes: -1 exactly when nothing is queued, -2 exactly when the first message is not
  // complete, -3 exactly when it is longer than the buffer, and nothing changes then; otherwise its
  // bytes and their number, and the window has reopened exactly when a full queue has room again.
  lemma RecvIs(r: Rcv, wnd: u32, len: int, n: nat)
    requires r.queue != [] ==> FirstMessage(r.queue, n)
    ensures var x, room := Recv(r, wnd, len), if len < 0 then -len else len;
            if r.queue == [] then x == Received(r, -1, [], false)
            else if |r.queue| <= r.queue[0].frg then x == Received(r, -2, [], false)
            else
              var bytes := Join(FragsOf(r.queue[..n]));
              if |bytes| > room then x == Received(r, -3, [], false)
              else
                && x.code == |bytes| && x.bytes == bytes
                && x.rcv == Drain(if len < 0 then r else r.(queue := r.queue[n..]), wnd)
                && (x.reopened <==> |x.rcv.queue| < wnd <= |r.queue|)
  {
    if r.queue != [] {
      var fs := FragsOf(r.queue);
      FirstMessageIs(r.queue, n);
      assert fs[..n] == FragsOf(r.queue[..n]);
      assert fs[0].frg == r.queue[0].frg;
      if PeekSize(fs) >= 0 { MergeMatchesPeek(fs); }
    }
  }

  // A queue that starts with fragments of |m|: once all of them are there a buffer of |room| bytes
  // takes the message exactly when |m| is at most |room|; before that the answer is -2.
  lemma RecvMessage(r: Rcv, wnd: u32, len: int, m: Bytes, mss: u32, tail: seq<Frag>)
    requires mss > 0 && r.queue != [] && FragsOf(r.queue) <= MessageFrags(m, mss) + tail
    ensures var x, room := Recv(r, wnd, len), if len < 0 then -len else len;
            if |r.queue| < Count(|m|, mss) then x == Received(r, -2, [], false)
            else if |m| > room then x == Received(r, -3, [], false)
            else x.code == |m| && x.bytes == m
  {
    ChopCount(m, mss);
    MergeRestores(FragsOf(r.queue), m, mss, tail);
  }

  // ---- unbounded indices: what the receiver holds ----

  // `total` counts the segments ever moved to the queue.
  function IndexFrom(total: nat, nxt: u32, sn: u32): nat {
    total + Dist(nxt, sn)
  }

  ghost predicate Holds(r: Rcv, total: nat, n: nat) {
    n < total || exists s :: s in r.buf && IndexFrom(total, r.nxt, s.sn) == n
  }
}
