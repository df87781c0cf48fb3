/** Fragmentation by `ikcp_send` and reassembly by `ikcp_recv`: what each appends, what each
    takes, and that one undoes the other. */
module Fragments {
  import opened Arithmetic
  import opened Words
  import opened Segments
  import opened Codec

  // A buffer cut into pieces of `mss` bytes, the last one shorter; the empty buffer is one empty piece.
  function Chop(m: Bytes, mss: u32): (c: seq<Bytes>)
    requires mss > 0
    ensures |c| >= 1
  {
    if |m| <= mss then [m] else [m[..mss]] + Chop(m[mss..], mss)
  }

  function JoinBytes(c: seq<Bytes>): Bytes {
    if c == [] then [] else c[0] + JoinBytes(c[1..])
  }

  function Join(fs: seq<Frag>): Bytes {
    if fs == [] then [] else fs[0].data + Join(fs[1..])
  }

  // Message mode numbers the pieces downwards to 0; stream mode numbers every piece 0.
  function Numbered(c: seq<Bytes>, stream: bool): (fs: seq<Frag>)
    ensures |fs| == |c|
  {
    seq(|c|, i requires 0 <= i < |c| => Frag(if stream then 0 else |c| - 1 - i, c[i]))
  }

  function MessageFrags(m: Bytes, mss: u32): (fs: seq<Frag>)
    requires mss > 0
    ensures |fs| >= 1
  {
    Numbered(Chop(m, mss), false)
  }

  // The fragments of a list of messages, end to end.
  function AllFrags(ms: seq<Bytes>, mss: u32): seq<Frag>
    requires mss > 0
  {
    if ms == [] then [] else MessageFrags(ms[0], mss) + AllFrags(ms[1..], mss)
  }

  // The source's count: one piece when the buffer fits, else the quotient rounded up.
  function Count(len: nat, mss: u32): nat
    requires mss > 0
  {
    if len <= mss then 1 else (len + mss - 1) / mss
  }

  // A segment as `ikcp_send` allocates it; the fields set later by flush are zero here.
  function Fresh(f: Frag): Segment
    requires f.frg < 0x100
  {
    Segment(0, 0, f.frg, 0, 0, 0, 0, 0, 0, 0, 0, f.data)
  }

  function FreshAll(fs: seq<Frag>): (q: seq<Segment>)
    requires forall i :: 0 <= i < |fs| ==> fs[i].frg < 0x100
    ensures FragsOf(q) == fs
  {
    seq(|fs|, i requires 0 <= i < |fs| => Fresh(fs[i]))
  }

  /** Result of a send: the new queue and the return code. */
  datatype Sent = Sent(queue: seq<Segment>, code: int)

  // Stream mode first tops up the last queued segment.
  function TopUp(q: seq<Segment>, mss: u32, m: Bytes): nat {
    if q == [] || |q[|q| - 1].data| >= mss then 0
    else Min(|m|, mss - |q[|q| - 1].data|)
  }

  function ToppedUp(q: seq<Segment>, mss: u32, m: Bytes): seq<Segment> {
    if q == [] || |q[|q| - 1].data| >= mss then q
    else q[..|q| - 1] + [Fresh(Frag(0, q[|q| - 1].data + m[..TopUp(q, mss, m)]))]
  }

  function Append(q: seq<Segment>, mss: u32, stream: bool, m: Bytes): Sent
    requires mss > 0
  {
    var c := Chop(m, mss);
    if |c| >= WND_RCV then Sent(q, -2) else Sent(q + FreshAll(Numbered(c, stream)), 0)
  }

  // `ikcp_send` for a buffer of non-negative length.
  function Send(q: seq<Segment>, mss: u32, stream: bool, m: Bytes): Sent
    requires mss > 0
  {
    if !stream then Append(q, mss, false, m)
    else
      var rest := m[TopUp(q, mss, m)..];
      if rest == [] then Sent(ToppedUp(q, mss, m), 0) else Append(ToppedUp(q, mss, m), mss, true, rest)
  }

  // How many fragments the merge loop of `ikcp_recv` takes: up to and including the first numbered 0.
  function MergeCount(fs: seq<Frag>): (n: nat)
    ensures n <= |fs|
  {
    if fs == [] then 0 else if fs[0].frg == 0 then 1 else 1 + MergeCount(fs[1..])
  }

  // Where the merge loop stops.
  lemma {:induction false} MergeStops(fs: seq<Frag>, k: nat)
    requires k <= |fs| && forall j :: 0 <= j < k ==> fs[j].frg != 0
    requires k < |fs| ==> fs[k].frg == 0
    ensures MergeCount(fs) == if k < |fs| then k + 1 else k
    decreases k
  {
    if k > 0 { MergeStops(fs[1..], k - 1); }
  }

  // The loop of `ikcp_peeksize`: adds up lengths up to the first fragment numbered 0.
  function LoopSize(fs: seq<Frag>): nat {
    if fs == [] then 0 else |fs[0].data| + if fs[0].frg == 0 then 0 else LoopSize(fs[1..])
  }

  // `ikcp_peeksize`.
  function PeekSize(fs: seq<Frag>): (size: int)
    ensures size >= -1
  {
    if fs == [] then -1
    else if fs[0].frg == 0 then |fs[0].data|
    else if |fs| < fs[0].frg + 1 then -1
    else LoopSize(fs)
  }

  // The loops of `ikcp_peeksize` and `ikcp_recv` count the same bytes.
  lemma {:induction false} MergeLength(fs: seq<Frag>)
    ensures |Join(fs[..MergeCount(fs)])| == LoopSize(fs)
  {
    if fs != [] {
      var n := MergeCount(fs);
      if fs[0].frg == 0 {
        assert fs[..1][1..] == [];
      } else {
        assert fs[..n][1..] == fs[1..][..n - 1];
        MergeLength(fs[1..]);
      }
    }
  }

  // The assertion in `ikcp_recv`: the merge yields exactly the size that was peeked.
  lemma MergeMatchesPeek(fs: seq<Frag>)
    requires PeekSize(fs) >= 0
    ensures |Join(fs[..MergeCount(fs)])| == PeekSize(fs)
  {
    MergeLength(fs);
  }

  lemma {:induction false} ChopJoins(m: Bytes, mss: u32)
    requires mss > 0
    ensures JoinBytes(Chop(m, mss)) == m
    ensures forall i :: 0 <= i < |Chop(m, mss)| ==> |Chop(m, mss)[i]| <= mss
    decreases |m|
  {
    if |m| > mss {
      ChopJoins(m[mss..], mss);
      var c, d := Chop(m, mss), Chop(m[mss..], mss);
      assert c[1..] == d && m == m[..mss] + m[mss..];
      forall i | 0 <= i < |c| ensures |c[i]| <= mss {
        if i > 0 { assert c[i] == d[i - 1]; }
      }
    } else {
      assert Chop(m, mss)[1..] == [];
    }
  }

  // Every piece but the last is full, and none is empty unless the buffer is.
  lemma {:induction false} ChopSizes(m: Bytes, mss: u32)
    requires mss > 0
    ensures var c := Chop(m, mss);
            && (forall i :: 0 <= i < |c| - 1 ==> |c[i]| == mss)
            && (m != [] ==> 0 < |c[|c| - 1]| <= mss)
    decreases |m|
  {
    if |m| > mss {
      ChopSizes(m[mss..], mss);
      var c, d := Chop(m, mss), Chop(m[mss..], mss);
      forall i | 0 <= i < |c| - 1 ensures |c[i]| == mss {
        if i > 0 { assert c[i] == d[i - 1]; }
      }
      assert c[|c| - 1] == d[|d| - 1];
    }
  }

  lemma {:induction false} ChopCount(m: Bytes, mss: u32)
    requires mss > 0
    ensures |Chop(m, mss)| == Count(|m|, mss)
    decreases |m|
  {
    if |m| > mss {
      ChopCount(m[mss..], mss);
      var n: int, d: int := |m|, mss;
      CeilStep(n, d);
      if n - d <= d { CeilOne(n - d, d); }
    }
  }

  lemma {:induction false} JoinNumbered(c: seq<Bytes>, fs: seq<Frag>)
    requires |fs| == |c| && forall i :: 0 <= i < |c| ==> fs[i].data == c[i]
    ensures Join(fs) == JoinBytes(c)
  {
    if c != [] { JoinNumbered(c[1..], fs[1..]); }
  }

  lemma {:induction false} JoinConcat(a: seq<Frag>, b: seq<Frag>)
    ensures Join(a + b) == Join(a) + Join(b)
  {
    if a == [] {
      assert a + b == b;
    } else {
      assert (a + b)[1..] == a[1..] + b;
      JoinConcat(a[1..], b);
    }
  }

  lemma JoinNext(fs: seq<Frag>, i: nat)
    requires i < |fs|
    ensures Join(fs[..i + 1]) == Join(fs[..i]) + fs[i].data
  {
    assert fs[..i + 1] == fs[..i] + [fs[i]];
    JoinConcat(fs[..i], [fs[i]]);
    assert [fs[i]][1..] == [];
  }

  // A merge loop that has taken |k| fragments, none of them a last one, has collected |bytes|.
  ghost predicate Merging(fs: seq<Frag>, k: nat, bytes: Bytes) {
    k <= |fs| && bytes == Join(fs[..k]) && forall j :: 0 <= j < k ==> fs[j].frg != 0
  }

  lemma MergingStart(fs: seq<Frag>)
    ensures Merging(fs, 0, [])
  {
  }

  // One more fragment: the loop ends with it or goes on.
  lemma MergeStep(fs: seq<Frag>, k: nat, bytes: Bytes)
    requires Merging(fs, k, bytes) && k < |fs|
    ensures bytes + fs[k].data == Join(fs[..k + 1])
    ensures if fs[k].frg == 0 then MergeCount(fs) == k + 1 else Merging(fs, k + 1, bytes + fs[k].data)
  {
    JoinNext(fs, k);
    if fs[k].frg == 0 { MergeStops(fs, k); }
  }

  lemma MergeEnd(fs: seq<Frag>, bytes: Bytes)
    requires Merging(fs, |fs|, bytes)
    ensures MergeCount(fs) == |fs| && bytes == Join(fs[..MergeCount(fs)])
  {
    MergeStops(fs, |fs|);
  }

  // A message-mode send is refused exactly when the quotient rounded up reaches the limit,
  // and then nothing is queued; otherwise the queue grows by countdown-numbered pieces of at
  // most `mss` bytes whose concatenation is the buffer.
  lemma SendMessage(q: seq<Segment>, mss: u32, m: Bytes)
    requires mss > 0
    ensures var r := Send(q, mss, false, m);
            && (r.code == -2 <==> Count(|m|, mss) >= 128)
            && (r.code == -2 ==> r.queue == q)
            && (r.code != -2 ==>
                && r.code == 0
                && |r.queue| == |q| + Count(|m|, mss)
                && r.queue[..|q|] == q
                && Join(FragsOf(r.queue[|q|..])) == m
                && (forall i :: |q| <= i < |r.queue| ==>
                      r.queue[i].frg == |r.queue| - 1 - i && |r.queue[i].data| <= mss)
                && (forall i :: |q| <= i < |r.queue| - 1 ==> |r.queue[i].data| == mss))
  {
    ChopSizes(m, mss);
    ChopCount(m, mss);
    ChopJoins(m, mss);
    var c := Chop(m, mss);
    var r := Send(q, mss, false, m);
    if |c| < 128 {
      var fs := Numbered(c, false);
      assert r.queue[|q|..] == FreshAll(fs);
      JoinNumbered(c, fs);
      forall i | |q| <= i < |r.queue|
        ensures r.queue[i].frg == |r.queue| - 1 - i && |r.queue[i].data| <= mss
        ensures i < |r.queue| - 1 ==> |r.queue[i].data| == mss
      {
        assert r.queue[i] == Fresh(fs[i - |q|]);
      }
    }
  }

  lemma JoinLast(q: seq<Segment>, s: Segment)
    ensures Join(FragsOf(q + [s])) == Join(FragsOf(q)) + s.data
  {
    assert FragsOf(q + [s]) == FragsOf(q) + [FragOf(s)];
    JoinConcat(FragsOf(q), [FragOf(s)]);
    assert Join([FragOf(s)]) == s.data + Join([FragOf(s)][1..]) == s.data;
  }

  lemma TopUpJoins(q: seq<Segment>, mss: u32, m: Bytes)
    ensures Join(FragsOf(ToppedUp(q, mss, m))) == Join(FragsOf(q)) + m[..TopUp(q, mss, m)]
  {
    if q != [] && |q[|q| - 1].data| < mss {
      var front, last := q[..|q| - 1], q[|q| - 1];
      assert q == front + [last];
      JoinLast(front, last);
      JoinLast(front, Fresh(Frag(0, last.data + m[..TopUp(q, mss, m)])));
    } else {
      assert m[..0] == [];
    }
  }

  lemma StreamPieces(top: seq<Segment>, mss: u32, rest: Bytes)
    requires mss > 0 && |Chop(rest, mss)| < 128
    ensures var r := Append(top, mss, true, rest).queue;
            && Join(FragsOf(r)) == Join(FragsOf(top)) + rest
            && (forall i :: |top| <= i < |r| ==> r[i].frg == 0 && |r[i].data| <= mss)
  {
    ChopJoins(rest, mss);
    var c := Chop(rest, mss);
    var fs := Numbered(c, true);
    var r := Append(top, mss, true, rest).queue;
    JoinNumbered(c, fs);
    assert FragsOf(r) == FragsOf(top) + fs;
    JoinConcat(FragsOf(top), fs);
    forall i | |top| <= i < |r| ensures r[i].frg == 0 && |r[i].data| <= mss {
      assert r[i] == Fresh(fs[i - |top|]);
    }
  }

  predicate TouchedOnly(q: seq<Segment>, r: seq<Segment>, mss: u32) {
    |r| >= |q| &&
    forall i :: 0 <= i < |r| ==> (i < |q| && r[i] == q[i]) || (r[i].frg == 0 && |r[i].data| <= mss)
  }

  // The last segment is filled from the front of the buffer, up to |mss|.
  lemma ToppedUpIs(q: seq<Segment>, mss: u32, m: Bytes)
    ensures var top := ToppedUp(q, mss, m);
            var room := if q != [] && |q[|q| - 1].data| < mss then mss - |q[|q| - 1].data| else 0;
            && |top| == |q| && TopUp(q, mss, m) == Min(room, |m|)
            && (room == 0 ==> top == q)
            && (room > 0 ==>
                && top[..|q| - 1] == q[..|q| - 1]
                && top[|q| - 1].data == q[|q| - 1].data + m[..Min(room, |m|)]
                && (room < |m| ==> |top[|q| - 1].data| == mss))
  {
  }

  lemma AppendStream(top: seq<Segment>, mss: u32, rest: Bytes)
    requires mss > 0
    ensures var r := Append(top, mss, true, rest);
            && (r.code == -2 <==> Count(|rest|, mss) >= 128)
            && (r.code == -2 ==> r.queue == top)
            && (r.code != -2 ==> r.code == 0 && Join(FragsOf(r.queue)) == Join(FragsOf(top)) + rest)
            && (r.code != -2 ==> |top| <= |r.queue| && r.queue[..|top|] == top)
            && (r.code != -2 ==> forall i :: |top| <= i < |r.queue| ==> r.queue[i].frg == 0 && |r.queue[i].data| <= mss)
  {
    ChopCount(rest, mss);
    if |Chop(rest, mss)| < 128 { StreamPieces(top, mss, rest); }
  }

  // A stream-mode send extends the queued bytes by a prefix of the buffer: all of it on success,
  // and on refusal as much as the last segment had room for.  Every segment it
  // writes carries at most `mss` bytes and the id 0.
  lemma SendStream(q: seq<Segment>, mss: u32, m: Bytes)
    requires mss > 0
    ensures var r := Send(q, mss, true, m);
            var room := if q != [] && |q[|q| - 1].data| < mss then mss - |q[|q| - 1].data| else 0;
            var kept := if r.code == 0 then |m| else room;
            && (r.code == 0 || r.code == -2) && kept <= |m|
            && (r.code == -2 <==> room < |m| && Count(|m| - room, mss) >= 128)
            && Join(FragsOf(r.queue)) == Join(FragsOf(q)) + m[..kept]
            && TouchedOnly(q, r.queue, mss)
  {
    var t := TopUp(q, mss, m);
    var rest, top := m[t..], ToppedUp(q, mss, m);
    ToppedUpIs(q, mss, m);
    TopUpJoins(q, mss, m);
    assert TouchedOnly(q, top, mss);
    assert m[..|m|] == m;
    if rest != [] {
      assert |rest| == |m| - t;
      AppendStream(top, mss, rest);
      assert m == m[..t] + rest;
    }
  }

  // Every segment from |from| on but the last one carries exactly |mss| bytes.
  ghost predicate FullUpTo(q: seq<Segment>, from: nat, mss: u32) {
    forall i :: from <= i < |q| - 1 ==> |q[i].data| == mss
  }

  lemma AppendFills(q: seq<Segment>, mss: u32, rest: Bytes)
    requires mss > 0 && rest != []
    ensures var r := Append(q, mss, true, rest);
            && (r.code == -2 <==> (|rest| + mss - 1) / mss >= 128)
            && (r.code == -2 ==> r.queue == q)
            && (r.code != -2 ==>
                && r.code == 0 && |r.queue| == |q| + (|rest| + mss - 1) / mss && r.queue[..|q|] == q
                && FullUpTo(r.queue, |q|, mss)
                && 0 < |r.queue[|r.queue| - 1].data| <= mss)
  {
    ChopCount(rest, mss);
    ChopSizes(rest, mss);
    if |rest| <= mss { CeilOne(|rest|, mss); }
    var c, r := Chop(rest, mss), Append(q, mss, true, rest);
    if |c| < 128 {
      forall i | |q| <= i < |r.queue| ensures r.queue[i].data == c[i - |q|] {
        assert r.queue[i] == Fresh(Numbered(c, true)[i - |q|]);
      }
    }
  }

  lemma FullOn(top: seq<Segment>, r: seq<Segment>, from: nat, mss: u32)
    requires |top| <= |r| && r[..|top|] == top && FullUpTo(r, |top|, mss)
    requires forall i :: from <= i < |top| ==> |top[i].data| == mss
    ensures FullUpTo(r, from, mss)
  {
    forall i | from <= i < |r| - 1 ensures |r[i].data| == mss {
      if i < |top| { assert r[i] == r[..|top|][i]; }
    }
  }

  // What a stream-mode send leaves when the last segment has |room| and the rest takes |more| pieces.
  ghost predicate Filled(q: seq<Segment>, mss: u32, m: Bytes, room: nat, more: nat, r: Sent)
    requires room > 0 ==> q != []
  {
    && r.code == (if more >= 128 then -2 else 0)
    && |r.queue| == |q| + (if r.code == 0 then more else 0)
    && (room == 0 ==> r.queue[..|q|] == q)
    && (room > 0 ==>
        && r.queue[..|q| - 1] == q[..|q| - 1]
        && r.queue[|q| - 1].data == q[|q| - 1].data + m[..Min(room, |m|)])
    && FullUpTo(r.queue, if room > 0 then |q| - 1 else |q|, mss)
    && (r.code == 0 && more > 0 ==> 0 < |r.queue[|r.queue| - 1].data| <= mss)
  }

  lemma FitsWhole(q: seq<Segment>, mss: u32, m: Bytes)
    requires mss > 0
    requires var room := if q != [] && |q[|q| - 1].data| < mss then mss - |q[|q| - 1].data| else 0; |m| <= room
    ensures var room := if q != [] && |q[|q| - 1].data| < mss then mss - |q[|q| - 1].data| else 0;
            Filled(q, mss, m, room, 0, Send(q, mss, true, m))
  {
    ToppedUpIs(q, mss, m);
  }

  lemma FitsInPart(q: seq<Segment>, mss: u32, m: Bytes, room: nat)
    requires mss > 0 && room == (if q != [] && |q[|q| - 1].data| < mss then mss - |q[|q| - 1].data| else 0)
    requires room < |m|
    ensures Filled(q, mss, m, room, (|m| - room + mss - 1) / mss, Send(q, mss, true, m))
  {
    var rest, top, r := m[room..], ToppedUp(q, mss, m), Send(q, mss, true, m);
    ToppedUpIs(q, mss, m);
    AppendFills(top, mss, rest);
    assert r == Append(top, mss, true, rest);
    if r.code == 0 {
      FullOn(top, r.queue, if room > 0 then |q| - 1 else |q|, mss);
      assert r.queue[..|q|] == top;
      if room > 0 { assert r.queue[..|q| - 1] == top[..|q| - 1] && r.queue[|q| - 1] == top[|q| - 1]; }
    }
  }

  // A stream-mode send first fills the open segment: it takes as much of the buffer as its room, and
  // keeps that even when the rest is refused.  What exceeds the room is cut into full segments but
  // for the last, and is refused exactly when that takes 128.
  lemma StreamFills(q: seq<Segment>, mss: u32, m: Bytes)
    requires mss > 0
    ensures var room := if q != [] && |q[|q| - 1].data| < mss then mss - |q[|q| - 1].data| else 0;
            var more := if |m| <= room then 0 else (|m| - room + mss - 1) / mss;
            Filled(q, mss, m, room, more, Send(q, mss, true, m))
  {
    var room := if q != [] && |q[|q| - 1].data| < mss then mss - |q[|q| - 1].data| else 0;
    if |m| <= room {
      FitsWhole(q, mss, m);
    } else {
      FitsInPart(q, mss, m, room);
    }
  }

  // Reassembly restores the message: on a queue that starts on a message boundary, a message is
  // readable exactly when all its fragments are there, and the merge then takes exactly these
  // fragments and returns exactly its bytes.
  lemma MergeRestores(q: seq<Frag>, m: Bytes, mss: u32, tail: seq<Frag>)
    requires mss > 0 && q != [] && q <= MessageFrags(m, mss) + tail
    ensures var n := |MessageFrags(m, mss)|;
            && (PeekSize(q) >= 0 <==> |q| >= n)
            && (|q| >= n ==> MergeCount(q) == n && PeekSize(q) == |m| && Join(q[..n]) == m)
  {
    var c := Chop(m, mss);
    var fs := MessageFrags(m, mss);
    assert q[0] == (fs + tail)[0] == fs[0] && fs[0].frg == |c| - 1;
    if |q| >= |fs| {
      assert q[..|fs|] == (fs + tail)[..|fs|] == fs;
      forall i | 0 <= i < |fs| ensures q[i].frg == |fs| - 1 - i { assert q[i] == fs[i]; }
      CountDown(q, |fs|);
      ChopJoins(m, mss);
      JoinNumbered(c, fs);
      MergeMatchesPeek(q);
    }
  }

  lemma {:induction false} CountDown(q: seq<Frag>, n: nat)
    requires 1 <= n <= |q| && forall i :: 0 <= i < n ==> q[i].frg == n - 1 - i
    ensures MergeCount(q) == n
  {
    if n > 1 { CountDown(q[1..], n - 1); }
  }

  lemma {:induction false} AllFragsConcat(a: seq<Bytes>, b: seq<Bytes>, mss: u32)
    requires mss > 0
    ensures AllFrags(a + b, mss) == AllFrags(a, mss) + AllFrags(b, mss)
  {
    if a == [] {
      assert a + b == b;
    } else {
      assert (a + b)[1..] == a[1..] + b;
      AllFragsConcat(a[1..], b, mss);
    }
  }

  lemma AllFragsOne(m: Bytes, mss: u32)
    requires mss > 0
    ensures AllFrags([m], mss) == MessageFrags(m, mss)
  {
    assert AllFrags([m][1..], mss) == [];
  }
}
