/** The sender's half of the sliding window: `snd_buf` between `snd_una` and `snd_nxt`,
    what each acknowledgement removes from it and what a flush moves into it. */
module SendWindow {
  import opened Words
  import opened Segments
  import Sequences

  /** Sender state.  `queue` holds segments without a serial number, `buf` those in flight. */
  datatype Snd = Snd(una: u32, nxt: u32, queue: seq<Segment>, buf: seq<Segment>)

  // Serial numbers in `buf` lie behind `nxt`, at most 65535 back, strictly increasing.
  ghost predicate InFlight(nxt: u32, buf: seq<Segment>) {
    && (forall i {:trigger buf[i]} :: 0 <= i < |buf| ==> 1 <= Dist(buf[i].sn, nxt) <= 65535)
    && (forall i, j {:trigger buf[i], buf[j]} :: 0 <= i < j < |buf| ==> Dist(buf[i].sn, nxt) > Dist(buf[j].sn, nxt))
  }

  // `ikcp_shrink_buf`: the first unacknowledged serial number.
  function Head(nxt: u32, buf: seq<Segment>): u32 {
    if buf == [] then nxt else buf[0].sn
  }

  ghost predicate SndInv(s: Snd) {
    InFlight(s.nxt, s.buf) && s.una == Head(s.nxt, s.buf)
  }

  // The number of serial numbers from `una` up to `nxt`.
  function Span(s: Snd): u32 {
    Dist(s.una, s.nxt)
  }

  // The loop of `ikcp_parse_una`: drops from the front what is below `una`, stops at the first that is not.
  function DropBelow(buf: seq<Segment>, una: u32): seq<Segment> {
    if buf == [] || Diff(una, buf[0].sn) <= 0 then buf else DropBelow(buf[1..], una)
  }

  function DropCount(buf: seq<Segment>, una: u32): (k: nat)
    ensures k <= |buf|
  {
    if buf == [] || Diff(una, buf[0].sn) <= 0 then 0 else 1 + DropCount(buf[1..], una)
  }

  lemma {:induction false} DropCountIs(buf: seq<Segment>, una: u32)
    ensures var k := DropCount(buf, una);
            && DropBelow(buf, una) == buf[k..]
            && (forall i :: 0 <= i < k ==> Diff(una, buf[i].sn) > 0)
            && (k < |buf| ==> Diff(una, buf[k].sn) <= 0)
  {
    if buf != [] && Diff(una, buf[0].sn) > 0 {
      DropCountIs(buf[1..], una);
      var k := DropCount(buf, una);
      forall i | 0 <= i < k ensures Diff(una, buf[i].sn) > 0 { if i > 0 { assert buf[i] == buf[1..][i - 1]; } }
    }
  }

  // The guard of `ikcp_parse_ack` and `ikcp_parse_fastack`.
  predicate InRange(una: u32, nxt: u32, sn: u32) {
    Diff(sn, una) >= 0 && Diff(sn, nxt) < 0
  }

  // The position of the first segment numbered `sn`, or the length when there is none.
  function Find(buf: seq<Segment>, sn: u32): (i: nat)
    ensures i <= |buf|
    ensures i < |buf| ==> buf[i].sn == sn
    ensures forall j :: 0 <= j < i ==> buf[j].sn != sn
  {
    if buf == [] || buf[0].sn == sn then 0 else 1 + Find(buf[1..], sn)
  }

  function Without(buf: seq<Segment>, sn: u32): seq<Segment> {
    var i := Find(buf, sn);
    if i < |buf| then buf[..i] + buf[i + 1..] else buf
  }

  // The scan of `ikcp_parse_ack`: takes out the segment numbered `sn`, gives up at a greater one.
  function ScanAck(buf: seq<Segment>, sn: u32): seq<Segment> {
    if buf == [] then []
    else if buf[0].sn == sn then buf[1..]
    else if Diff(sn, buf[0].sn) < 0 then buf
    else [buf[0]] + ScanAck(buf[1..], sn)
  }

  lemma {:induction false} ScanAckOnlyRemoves(buf: seq<Segment>, sn: u32)
    ensures forall x :: x in ScanAck(buf, sn) ==> x in buf
  {
    if buf != [] { ScanAckOnlyRemoves(buf[1..], sn); }
  }

  // Where the scan of `ikcp_parse_ack` stops, and what it leaves there.
  lemma {:induction false} ScanAckStops(buf: seq<Segment>, sn: u32, k: nat)
    requires k <= |buf| && forall j :: 0 <= j < k ==> buf[j].sn != sn && Diff(sn, buf[j].sn) >= 0
    ensures k < |buf| && buf[k].sn == sn ==> ScanAck(buf, sn) == buf[..k] + buf[k + 1..]
    ensures k < |buf| && buf[k].sn != sn && Diff(sn, buf[k].sn) < 0 ==> ScanAck(buf, sn) == buf
    ensures k == |buf| ==> ScanAck(buf, sn) == buf
    decreases k
  {
    if k > 0 {
      var rest := buf[1..];
      ScanAckStops(rest, sn, k - 1);
      assert buf == [buf[0]] + rest;
      if k < |buf| {
        assert rest[k - 1] == buf[k];
        assert [buf[0]] + (rest[..k - 1] + rest[k..]) == buf[..k] + buf[k + 1..];
      }
    }
  }

  function Bumped(s: Segment): Segment {
    s.(fastack := Add(s.fastack, 1))
  }

  // The scan of `ikcp_parse_fastack`: counts a skip on each segment it passes, gives up at a greater one.
  function ScanSkip(buf: seq<Segment>, sn: u32): (r: seq<Segment>)
    ensures |r| == |buf|
    ensures forall i :: 0 <= i < |buf| ==> r[i] == buf[i] || r[i] == Bumped(buf[i])
  {
    if buf == [] || Diff(sn, buf[0].sn) < 0 then buf
    else [if buf[0].sn != sn then Bumped(buf[0]) else buf[0]] + ScanSkip(buf[1..], sn)
  }

  // Where the scan of `ikcp_parse_fastack` stops, and what it leaves behind.
  lemma {:induction false} ScanSkipStops(buf: seq<Segment>, sn: u32, k: nat)
    requires k <= |buf| && forall j :: 0 <= j < k ==> Diff(sn, buf[j].sn) >= 0
    requires k < |buf| ==> Diff(sn, buf[k].sn) < 0
    ensures forall j :: 0 <= j < |buf| ==>
              ScanSkip(buf, sn)[j] == if j < k && buf[j].sn != sn then Bumped(buf[j]) else buf[j]
    decreases k
  {
    if k > 0 {
      ScanSkipStops(buf[1..], sn, k - 1);
      forall j | 0 < j < |buf|
        ensures ScanSkip(buf, sn)[j] == ScanSkip(buf[1..], sn)[j - 1] && buf[j] == buf[1..][j - 1]
      {
      }
    }
  }

  // One skip is counted on every segment below `sn`.
  function Skip(s: Segment, sn: u32): Segment {
    if Diff(sn, s.sn) > 0 then Bumped(s) else s
  }

  function SkipBelow(buf: seq<Segment>, sn: u32): (r: seq<Segment>)
    ensures |r| == |buf|
    ensures forall i :: 0 <= i < |buf| ==> r[i] == Skip(buf[i], sn)
  {
    seq(|buf|, i requires 0 <= i < |buf| => Skip(buf[i], sn))
  }

  function Shrink(s: Snd, buf: seq<Segment>): Snd {
    s.(buf := buf, una := Head(s.nxt, buf))
  }

  // `ikcp_parse_una` then `ikcp_shrink_buf`.
  function TakeUna(s: Snd, una: u32): Snd {
    Shrink(s, DropBelow(s.buf, una))
  }

  // `ikcp_parse_ack` then `ikcp_shrink_buf`.
  function TakeAck(s: Snd, sn: u32): Snd {
    Shrink(s, if InRange(s.una, s.nxt, sn) then ScanAck(s.buf, sn) else s.buf)
  }

  // `ikcp_parse_fastack`.
  function TakeFastAck(s: Snd, sn: u32): Snd {
    if InRange(s.una, s.nxt, sn) then s.(buf := ScanSkip(s.buf, sn)) else s
  }

  // The sender's share of one received segment.
  function OnWire(s: Snd, w: Wire): Snd {
    var t := TakeUna(s, w.una);
    if w.cmd == CMD_ACK then TakeAck(t, w.sn) else t
  }

  function OnWires(s: Snd, ws: seq<Wire>): Snd
    decreases |ws|
  {
    if ws == [] then s else OnWires(OnWire(s, ws[0]), ws[1..])
  }

  // How many queued segments a flush admits under window `cwnd`.
  function Room(s: Snd, cwnd: u32): nat {
    Min(|s.queue|, Max(0, cwnd - Span(s)))
  }

  /** What a flush stamps on a segment it admits. */
  datatype Stamp = Stamp(conv: u32, wnd: u32, ts: u32, una: u32, rto: u32)

  function Admit(q: Segment, st: Stamp, sn: u32): Segment {
    Segment(st.conv, CMD_PUSH, q.frg, st.wnd, st.ts, sn, st.una, st.ts, st.rto, 0, 0, q.data)
  }

  function Admitted(q: seq<Segment>, st: Stamp, nxt: u32): (r: seq<Segment>)
    ensures |r| == |q|
    ensures forall i :: 0 <= i < |q| ==> r[i] == Admit(q[i], st, Wrap(nxt + i))
  {
    seq(|q|, i requires 0 <= i < |q| => Admit(q[i], st, Wrap(nxt + i)))
  }

  // Moves segments from `queue` to `buf` while the window is open.
  function Move(s: Snd, cwnd: u32, st: Stamp): Snd
    decreases |s.queue|
  {
    if s.queue != [] && Diff(s.nxt, Add(s.una, cwnd)) < 0 then
      Move(MoveOne(s, st), cwnd, st)
    else s
  }

  function MoveOne(s: Snd, st: Stamp): Snd
    requires s.queue != []
  {
    Snd(s.una, Add(s.nxt, 1), s.queue[1..], s.buf + [Admit(s.queue[0], st, s.nxt)])
  }

  // The same in one go: as many as fit.
  function Batch(s: Snd, cwnd: u32, st: Stamp): Snd {
    var n := Room(s, cwnd);
    Snd(s.una, Wrap(s.nxt + n), s.queue[n..], s.buf + Admitted(s.queue[..n], st, s.nxt))
  }

  // ---- invariant under every operation, for any bytes ----

  lemma SuffixInFlight(nxt: u32, buf: seq<Segment>, k: nat)
    requires k <= |buf| && InFlight(nxt, buf)
    ensures InFlight(nxt, buf[k..])
    ensures Dist(Head(nxt, buf[k..]), nxt) <= Dist(Head(nxt, buf), nxt)
  {
    var r := buf[k..];
    forall i | 0 <= i < |r| ensures r[i] == buf[k + i] {}
  }

  lemma WithoutInFlight(nxt: u32, buf: seq<Segment>, sn: u32)
    requires InFlight(nxt, buf)
    ensures InFlight(nxt, Without(buf, sn))
    ensures Dist(Head(nxt, Without(buf, sn)), nxt) <= Dist(Head(nxt, buf), nxt)
  {
    var i, r := Find(buf, sn), Without(buf, sn);
    assert i < |buf| ==> forall j :: 0 <= j < |r| ==> r[j] == buf[if j < i then j else j + 1];
  }

  // In a sorted window the scan finds the segment if it is there.
  lemma {:induction false} ScanAckIsRemoval(nxt: u32, buf: seq<Segment>, sn: u32)
    requires InFlight(nxt, buf) && 1 <= Dist(sn, nxt) <= 65535
    ensures ScanAck(buf, sn) == Without(buf, sn)
  {
    if buf != [] && buf[0].sn != sn {
      OrderExact(nxt, sn, buf[0].sn);
      SuffixInFlight(nxt, buf, 1);
      var tail := buf[1..];
      if Diff(sn, buf[0].sn) < 0 {
        forall j | 0 <= j < |buf| ensures buf[j].sn != sn {
          assert Dist(buf[j].sn, nxt) <= Dist(buf[0].sn, nxt);
        }
      } else {
        ScanAckIsRemoval(nxt, tail, sn);
        WithoutCons(buf, sn);
      }
    }
  }

  lemma WithoutCons(buf: seq<Segment>, sn: u32)
    requires buf != [] && buf[0].sn != sn
    ensures Without(buf, sn) == [buf[0]] + Without(buf[1..], sn)
  {
    var i, tail := Find(buf, sn), buf[1..];
    assert Find(tail, sn) == i - 1;
    if i < |buf| {
      assert buf[..i] + buf[i + 1..] == [buf[0]] + (tail[..i - 1] + tail[i..]);
    }
  }

  // And the skip count reaches exactly the segments below `sn`.
  lemma {:induction false} ScanSkipIsMap(nxt: u32, buf: seq<Segment>, sn: u32)
    requires InFlight(nxt, buf) && 1 <= Dist(sn, nxt) <= 65535
    ensures ScanSkip(buf, sn) == SkipBelow(buf, sn)
  {
    if buf != [] {
      OrderExact(nxt, sn, buf[0].sn);
      SuffixInFlight(nxt, buf, 1);
      if Diff(sn, buf[0].sn) < 0 {
        forall j | 0 <= j < |buf| ensures Skip(buf[j], sn) == buf[j] {
          OrderExact(nxt, sn, buf[j].sn);
          assert Dist(buf[j].sn, nxt) <= Dist(buf[0].sn, nxt);
        }
      } else {
        ScanSkipIsMap(nxt, buf[1..], sn);
        assert SkipBelow(buf, sn) == [Skip(buf[0], sn)] + SkipBelow(buf[1..], sn);
      }
    }
  }

  // What a single acknowledgement leaves, by the set reading.
  lemma TakeAckIs(s: Snd, sn: u32)
    requires SndInv(s)
    ensures TakeAck(s, sn) == Shrink(s, if InRange(s.una, s.nxt, sn) then Without(s.buf, sn) else s.buf)
  {
    InRangeExact(s, sn);
    HeadSpan(s.nxt, s.buf);
    if InRange(s.una, s.nxt, sn) { ScanAckIsRemoval(s.nxt, s.buf, sn); }
  }

  // One datagram counts one skip on exactly the segments in flight below the acknowledged serial
  // number when that lies in the window, and on none otherwise.
  lemma TakeFastAckIs(s: Snd, sn: u32)
    requires SndInv(s)
    ensures TakeFastAck(s, sn) == if InRange(s.una, s.nxt, sn) then s.(buf := SkipBelow(s.buf, sn)) else s
    ensures forall i :: 0 <= i < |s.buf| && InRange(s.una, s.nxt, sn) ==>
              (Skip(s.buf[i], sn) == Bumped(s.buf[i]) <==> Dist(s.buf[i].sn, s.nxt) > Dist(sn, s.nxt))
  {
    InRangeExact(s, sn);
    HeadSpan(s.nxt, s.buf);
    if InRange(s.una, s.nxt, sn) {
      ScanSkipIsMap(s.nxt, s.buf, sn);
      forall i | 0 <= i < |s.buf|
        ensures Skip(s.buf[i], sn) == Bumped(s.buf[i]) <==> Dist(s.buf[i].sn, s.nxt) > Dist(sn, s.nxt)
      {
        OrderExact(s.nxt, sn, s.buf[i].sn);
        BumpChanges(s.buf[i]);
      }
    }
  }

  lemma BumpChanges(s: Segment)
    ensures Bumped(s) != s
  {
    assert Bumped(s).fastack != s.fastack;
  }

  // Whatever a received segment claims, the window stays well formed, `nxt` and the queue are
  // untouched and `una` never moves backwards.
  lemma OnWireKeeps(s: Snd, w: Wire)
    requires SndInv(s)
    ensures var t := OnWire(s, w);
            SndInv(t) && t.nxt == s.nxt && t.queue == s.queue && Span(t) <= Span(s)
  {
    DropCountIs(s.buf, w.una);
    SuffixInFlight(s.nxt, s.buf, DropCount(s.buf, w.una));
    var t := TakeUna(s, w.una);
    TakeAckIs(t, w.sn);
    WithoutInFlight(t.nxt, t.buf, w.sn);
  }

  lemma {:induction false} OnWiresKeeps(s: Snd, ws: seq<Wire>)
    requires SndInv(s)
    ensures var t := OnWires(s, ws);
            SndInv(t) && t.nxt == s.nxt && t.queue == s.queue && Span(t) <= Span(s)
    decreases |ws|
  {
    if ws != [] {
      OnWireKeeps(s, ws[0]);
      OnWiresKeeps(OnWire(s, ws[0]), ws[1..]);
    }
  }

  lemma TakeFastAckKeeps(s: Snd, sn: u32)
    requires SndInv(s)
    ensures SndInv(TakeFastAck(s, sn))
  {
    var r := ScanSkip(s.buf, sn);
    assert forall i :: 0 <= i < |r| ==> r[i].sn == s.buf[i].sn;
  }

  lemma AppendDist(nxt: u32, buf: seq<Segment>, add: seq<Segment>, i: nat)
    requires InFlight(nxt, buf) && Dist(Head(nxt, buf), nxt) + |add| <= 65535 && i < |buf| + |add|
    requires forall i :: 0 <= i < |add| ==> add[i].sn == Wrap(nxt + i)
    ensures Dist((buf + add)[i].sn, Wrap(nxt + |add|)) ==
            |add| + if i < |buf| then Dist(buf[i].sn, nxt) else |buf| - i
  {
    if i < |buf| {
      assert (buf + add)[i] == buf[i] && Dist(buf[i].sn, nxt) <= Dist(buf[0].sn, nxt);
      DistPlus(buf[i].sn, nxt, |add|);
    } else {
      assert (buf + add)[i] == add[i - |buf|];
      DistExact(nxt + (i - |buf|), nxt + |add|);
    }
  }

  lemma AppendInFlight(nxt: u32, buf: seq<Segment>, add: seq<Segment>)
    requires InFlight(nxt, buf) && Dist(Head(nxt, buf), nxt) + |add| <= 65535
    requires forall i :: 0 <= i < |add| ==> add[i].sn == Wrap(nxt + i)
    ensures InFlight(Wrap(nxt + |add|), buf + add)
  {
    forall i | 0 <= i < |buf + add|
      ensures Dist((buf + add)[i].sn, Wrap(nxt + |add|)) ==
              |add| + if i < |buf| then Dist(buf[i].sn, nxt) else |buf| - i
    {
      AppendDist(nxt, buf, add, i);
    }
    forall i | 0 <= i < |buf| ensures Dist(buf[i].sn, nxt) <= Dist(buf[0].sn, nxt) {}
  }

  lemma AppendHead(nxt: u32, buf: seq<Segment>, add: seq<Segment>)
    requires forall i :: 0 <= i < |add| ==> add[i].sn == Wrap(nxt + i)
    ensures Head(Wrap(nxt + |add|), buf + add) == Head(nxt, buf)
  {
    if buf == [] {
      assert buf + add == add;
      if add != [] { assert add[0].sn == Wrap(nxt + 0); }
    }
  }

  lemma RoomBound(s: Snd, cwnd: u32)
    requires Span(s) <= 65535 && cwnd <= 65535
    ensures Span(s) + Room(s, cwnd) <= 65535
  {
  }

  lemma HeadSpan(nxt: u32, buf: seq<Segment>)
    requires InFlight(nxt, buf)
    ensures Dist(Head(nxt, buf), nxt) <= 65535
  {
  }

  // Segments numbered on from `nxt` extend a well-formed window.
  lemma ExtendKeeps(s: Snd, add: seq<Segment>, rest: seq<Segment>)
    requires SndInv(s) && Span(s) + |add| <= 65535
    requires forall i :: 0 <= i < |add| ==> add[i].sn == Wrap(s.nxt + i)
    ensures var t := Snd(s.una, Wrap(s.nxt + |add|), rest, s.buf + add);
            SndInv(t) && Span(t) == Span(s) + |add|
  {
    AppendInFlight(s.nxt, s.buf, add);
    AppendHead(s.nxt, s.buf, add);
    DistPlus(s.una, s.nxt, |add|);
  }

  // What a flush admits keeps the window well formed and no wider than 65535.
  lemma BatchKeeps(s: Snd, cwnd: u32, st: Stamp)
    requires SndInv(s) && cwnd <= 65535
    ensures SndInv(Batch(s, cwnd, st))
    ensures Span(Batch(s, cwnd, st)) == Span(s) + Room(s, cwnd) <= 65535
  {
    var n := Room(s, cwnd);
    var add := Admitted(s.queue[..n], st, s.nxt);
    HeadSpan(s.nxt, s.buf);
    RoomBound(s, cwnd);
    assert Batch(s, cwnd, st) == Snd(s.una, Wrap(s.nxt + |add|), s.queue[n..], s.buf + add);
    ExtendKeeps(s, add, s.queue[n..]);
  }

  // Inside the window the wrapped loop test of the source counts correctly.
  lemma WindowTest(una: u32, nxt: u32, cwnd: u32)
    requires Dist(una, nxt) <= 65535 && cwnd <= 65535
    ensures Diff(nxt, Add(una, cwnd)) < 0 <==> Dist(una, nxt) < cwnd
  {
  }

  lemma AdmittedCons(q: seq<Segment>, st: Stamp, nxt: u32)
    requires q != []
    ensures Admitted(q, st, nxt) == [Admit(q[0], st, nxt)] + Admitted(q[1..], st, Add(nxt, 1))
  {
    var a, b := Admitted(q, st, nxt), Admitted(q[1..], st, Add(nxt, 1));
    WrapSmall(nxt);
    AddWrap(nxt, 1);
    assert a[0] == Admit(q[0], st, nxt);
    forall i | 0 <= i < |q| - 1 ensures a[i + 1] == b[i] {
      WrapPlus(nxt + 1, i);
      assert q[1..][i] == q[i + 1];
    }
  }

  lemma RoomStep(s: Snd, cwnd: u32, st: Stamp)
    requires s.queue != [] && Span(s) < cwnd <= 65535
    ensures Span(MoveOne(s, st)) == Span(s) + 1
    ensures Room(s, cwnd) >= 1 && Room(MoveOne(s, st), cwnd) == Room(s, cwnd) - 1
  {
  }

  lemma NextWrap(nxt: u32, n: nat)
    requires n >= 1
    ensures Wrap(Add(nxt, 1) + (n - 1)) == Wrap(nxt + n)
  {
    WrapSmall(nxt);
    AddWrap(nxt, 1);
    WrapPlus(nxt + 1, n - 1);
  }

  lemma TakeTail(q: seq<Segment>, n: nat)
    requires 1 <= n <= |q|
    ensures q[..n][0] == q[0] && q[..n][1..] == q[1..][..n - 1] && q[n..] == q[1..][n - 1..]
  {
  }

  lemma BatchStep(s: Snd, cwnd: u32, st: Stamp)
    requires s.queue != [] && Span(s) < cwnd <= 65535
    ensures Batch(s, cwnd, st) == Batch(MoveOne(s, st), cwnd, st)
  {
    var t, n := MoveOne(s, st), Room(s, cwnd);
    RoomStep(s, cwnd, st);
    NextWrap(s.nxt, n);
    TakeTail(s.queue, n);
    AdmittedCons(s.queue[..n], st, s.nxt);
    Sequences.Assoc(s.buf, [Admit(s.queue[0], st, s.nxt)], Admitted(t.queue[..n - 1], st, t.nxt));
  }

  // The loop that admits segments one at a time admits as many as fit.
  lemma {:induction false} MoveIsBatch(s: Snd, cwnd: u32, st: Stamp)
    requires Span(s) <= 65535 && cwnd <= 65535
    ensures Move(s, cwnd, st) == Batch(s, cwnd, st)
    decreases |s.queue|
  {
    WindowTest(s.una, s.nxt, cwnd);
    if s.queue != [] && Span(s) < cwnd {
      RoomStep(s, cwnd, st);
      BatchStep(s, cwnd, st);
      MoveIsBatch(MoveOne(s, st), cwnd, st);
    } else {
      assert Room(s, cwnd) == 0;
      assert s.queue[..0] == [] && s.queue[0..] == s.queue;
    }
  }

  lemma MoveKeeps(s: Snd, cwnd: u32, st: Stamp)
    requires SndInv(s) && cwnd <= 65535
    ensures Move(s, cwnd, st) == Batch(s, cwnd, st)
    ensures SndInv(Move(s, cwnd, st))
    ensures Span(Move(s, cwnd, st)) == Span(s) + Room(s, cwnd) <= 65535
  {
    HeadSpan(s.nxt, s.buf);
    MoveIsBatch(s, cwnd, st);
    BatchKeeps(s, cwnd, st);
  }

  // ---- wrapped comparisons inside the window are exact ----

  // The guard admits exactly the serial numbers from `una` up to `nxt`.
  lemma InRangeExact(s: Snd, sn: u32)
    requires SndInv(s)
    ensures InRange(s.una, s.nxt, sn) <==> 1 <= Dist(sn, s.nxt) <= Span(s)
  {
  }

  // Inside the window the order of serial numbers is the order of the distances to `nxt`.
  lemma OrderExact(nxt: u32, a: u32, b: u32)
    requires Dist(a, nxt) <= 65535 && Dist(b, nxt) <= 65535
    ensures Diff(a, b) == Dist(b, nxt) - Dist(a, nxt)
  {
  }

  ghost predicate CarriedBy(buf: seq<Segment>, sn: u32) {
    exists i :: 0 <= i < |buf| && buf[i].sn == sn
  }

  lemma NotOutside(s: Snd, sn: u32)
    requires SndInv(s) && !InRange(s.una, s.nxt, sn)
    ensures !CarriedBy(s.buf, sn)
  {
    forall j | 0 <= j < |s.buf| ensures s.buf[j].sn != sn {
      assert 1 <= Dist(s.buf[j].sn, s.nxt) <= Dist(s.buf[0].sn, s.nxt);
    }
  }

  lemma WithoutExact(buf: seq<Segment>, sn: u32, x: u32)
    requires forall i, j :: 0 <= i < j < |buf| ==> buf[i].sn != buf[j].sn
    ensures CarriedBy(Without(buf, sn), x) <==> CarriedBy(buf, x) && x != sn
  {
    var i, r := Find(buf, sn), Without(buf, sn);
    if CarriedBy(r, x) {
      var k :| 0 <= k < |r| && r[k].sn == x;
      assert r[k] == buf[if k < i then k else k + 1];
    }
    if CarriedBy(buf, x) && x != sn {
      var k :| 0 <= k < |buf| && buf[k].sn == x;
      assert r[if k < i then k else k - 1] == buf[k];
    }
  }

  // `ikcp_parse_ack` removes exactly the acknowledged serial number when it is in the window,
  // and nothing otherwise.
  lemma TakeAckExact(s: Snd, sn: u32, x: u32)
    requires SndInv(s)
    ensures CarriedBy(TakeAck(s, sn).buf, x) <==> CarriedBy(s.buf, x) && x != sn
  {
    TakeAckIs(s, sn);
    if InRange(s.una, s.nxt, sn) { WithoutExact(s.buf, sn, x); } else { NotOutside(s, sn); }
  }

  // ---- what a list of segments releases ----

  // A received segment releases serial number |x|: its `una` is beyond it, or it acknowledges it.
  predicate Releases(w: Wire, x: u32) {
    Diff(w.una, x) > 0 || (w.cmd == CMD_ACK && w.sn == x)
  }

  lemma NearOrder(base: u32, nxt: u32, una: u32, sn: u32)
    requires Dist(base, nxt) <= 65535 && Dist(sn, nxt) <= Dist(base, nxt) && Diff(una, base) >= -0x7fff_0000
    ensures Diff(una, sn) == Diff(una, base) - Dist(base, nxt) + Dist(sn, nxt)
  {
  }

  lemma NearHead(base: u32, nxt: u32, buf: seq<Segment>, una: u32, k: nat, i: nat)
    requires InFlight(nxt, buf) && Dist(base, nxt) <= 65535 && Dist(Head(nxt, buf), nxt) <= Dist(base, nxt)
    requires Diff(una, base) >= -0x7fff_0000 && k <= i < |buf|
    ensures Diff(una, buf[i].sn) <= Diff(una, buf[k].sn)
  {
    assert Dist(buf[i].sn, nxt) <= Dist(buf[k].sn, nxt) <= Dist(buf[0].sn, nxt);
    NearOrder(base, nxt, una, buf[i].sn);
    NearOrder(base, nxt, una, buf[k].sn);
  }

  lemma CarriedBehind(buf: seq<Segment>, k: nat, una: u32, x: u32)
    requires k <= |buf| && forall i :: 0 <= i < |buf| ==> (Diff(una, buf[i].sn) <= 0 <==> k <= i)
    ensures CarriedBy(buf[k..], x) <==> CarriedBy(buf, x) && Diff(una, x) <= 0
  {
    var r := buf[k..];
    if CarriedBy(r, x) {
      var j :| 0 <= j < |r| && r[j].sn == x;
      assert buf[k + j].sn == x;
    }
    if CarriedBy(buf, x) && Diff(una, x) <= 0 {
      var i :| 0 <= i < |buf| && buf[i].sn == x;
      assert r[i - k].sn == x;
    }
  }

  // A `una` that is not far behind the window drops exactly what is below it.
  lemma DropNear(base: u32, nxt: u32, buf: seq<Segment>, una: u32, x: u32)
    requires InFlight(nxt, buf) && Dist(base, nxt) <= 65535 && Dist(Head(nxt, buf), nxt) <= Dist(base, nxt)
    requires Diff(una, base) >= -0x7fff_0000
    ensures CarriedBy(DropBelow(buf, una), x) <==> CarriedBy(buf, x) && Diff(una, x) <= 0
  {
    var k := DropCount(buf, una);
    DropCountIs(buf, una);
    forall i | 0 <= i < |buf| ensures Diff(una, buf[i].sn) <= 0 <==> k <= i {
      if k <= i { NearHead(base, nxt, buf, una, k, i); }
    }
    CarriedBehind(buf, k, una, x);
  }

  lemma OnWireReleases(base: u32, s: Snd, w: Wire, x: u32)
    requires SndInv(s) && Span(s) <= Dist(base, s.nxt) <= 65535 && Diff(w.una, base) >= -0x7fff_0000
    ensures CarriedBy(OnWire(s, w).buf, x) <==> CarriedBy(s.buf, x) && !Releases(w, x)
  {
    DropNear(base, s.nxt, s.buf, w.una, x);
    DropCountIs(s.buf, w.una);
    SuffixInFlight(s.nxt, s.buf, DropCount(s.buf, w.una));
    TakeAckExact(TakeUna(s, w.una), w.sn, x);
  }

  // Segments whose `una` is not far behind the window take out of flight exactly what one of them
  // is beyond or acknowledges.
  lemma {:induction false} OnWiresReleases(base: u32, s: Snd, ws: seq<Wire>, x: u32)
    requires SndInv(s) && Span(s) <= Dist(base, s.nxt) <= 65535
    requires forall i :: 0 <= i < |ws| ==> Diff(ws[i].una, base) >= -0x7fff_0000
    ensures CarriedBy(OnWires(s, ws).buf, x) <==>
              CarriedBy(s.buf, x) && forall i :: 0 <= i < |ws| ==> !Releases(ws[i], x)
    decreases |ws|
  {
    if ws != [] {
      var rest := ws[1..];
      OnWireReleases(base, s, ws[0], x);
      OnWireKeeps(s, ws[0]);
      OnWiresReleases(base, OnWire(s, ws[0]), rest, x);
      assert forall i :: 0 <= i < |rest| ==> rest[i] == ws[i + 1];
      assert forall i :: 0 < i < |ws| ==> ws[i] == rest[i - 1];
    }
  }

  // The set reading of `ikcp_parse_una`: keep what is not below `una`.
  function Above(buf: seq<Segment>, una: u32): seq<Segment> {
    if buf == [] then []
    else (if Diff(una, buf[0].sn) <= 0 then [buf[0]] else []) + Above(buf[1..], una)
  }

  lemma {:induction false} AboveAll(buf: seq<Segment>, una: u32)
    ensures Above(buf, una) == buf <==> forall i :: 0 <= i < |buf| ==> Diff(una, buf[i].sn) <= 0
    ensures |Above(buf, una)| <= |buf|
  {
    if buf != [] {
      AboveAll(buf[1..], una);
      assert buf == [buf[0]] + buf[1..];
      if forall i :: 0 <= i < |buf| ==> Diff(una, buf[i].sn) <= 0 {
        forall i | 0 <= i < |buf[1..]| ensures Diff(una, buf[1..][i].sn) <= 0 { assert buf[1..][i] == buf[i + 1]; }
      }
      if Above(buf, una) == buf {
        assert Diff(una, buf[0].sn) <= 0;
        assert Above(buf, una)[1..] == Above(buf[1..], una);
        forall i | 0 <= i < |buf| ensures Diff(una, buf[i].sn) <= 0 { if i > 0 { assert buf[i] == buf[1..][i - 1]; } }
      }
    }
  }

  lemma {:induction false} AboveDrops(buf: seq<Segment>, una: u32)
    ensures Above(buf, una) == Above(DropBelow(buf, una), una)
  {
    if buf != [] && Diff(una, buf[0].sn) > 0 {
      AboveDrops(buf[1..], una);
    }
  }

  // How the comparison with each segment follows from the comparison with the head.
  lemma BehindHead(nxt: u32, buf: seq<Segment>, una: u32, i: nat)
    requires InFlight(nxt, buf) && i < |buf|
    ensures var d := Diff(una, buf[0].sn) - Dist(buf[0].sn, buf[i].sn);
            Diff(una, buf[i].sn) == if d < -0x8000_0000 then d + 0x1_0000_0000 else d
    ensures Dist(buf[0].sn, buf[i].sn) == Dist(buf[0].sn, nxt) - Dist(buf[i].sn, nxt)
  {
    assert Dist(buf[0].sn, nxt) >= Dist(buf[i].sn, nxt);
  }

  lemma DropAhead(nxt: u32, buf: seq<Segment>, una: u32)
    requires InFlight(nxt, buf) && buf != [] && Diff(una, buf[0].sn) > 0
    ensures forall i :: DropCount(buf, una) <= i < |buf| ==> Diff(una, buf[i].sn) <= 0
  {
    var k := DropCount(buf, una);
    DropCountIs(buf, una);
    forall i | k <= i < |buf| ensures Diff(una, buf[i].sn) <= 0 {
      BehindHead(nxt, buf, una, i);
      BehindHead(nxt, buf, una, k);
      assert Dist(buf[k].sn, nxt) >= Dist(buf[i].sn, nxt);
    }
  }

  lemma DropBehind(nxt: u32, buf: seq<Segment>, una: u32)
    requires InFlight(nxt, buf) && buf != [] && Diff(una, buf[0].sn) <= 0
    ensures (forall i :: 0 <= i < |buf| ==> Diff(una, buf[i].sn) <= 0) <==>
            Diff(una, buf[0].sn) - Dist(buf[0].sn, buf[|buf| - 1].sn) >= -0x8000_0000
  {
    var last := |buf| - 1;
    BehindHead(nxt, buf, una, last);
    if Diff(una, buf[last].sn) <= 0 {
      forall i | 0 <= i < |buf| ensures Diff(una, buf[i].sn) <= 0 {
        BehindHead(nxt, buf, una, i);
        assert Dist(buf[i].sn, nxt) >= Dist(buf[last].sn, nxt);
      }
    }
  }

  // The early exit of `ikcp_parse_una` removes exactly the serial numbers below `una` if and
  // only if `una` is ahead of the head or not so far behind it that the comparison with the
  // last segment wraps around.
  lemma DropIsFilterIff(nxt: u32, buf: seq<Segment>, una: u32)
    requires InFlight(nxt, buf)
    ensures DropBelow(buf, una) == Above(buf, una) <==>
            || buf == []
            || Diff(una, buf[0].sn) > 0
            || Diff(una, buf[0].sn) - Dist(buf[0].sn, buf[|buf| - 1].sn) >= -0x8000_0000
  {
    if buf != [] {
      var r := DropBelow(buf, una);
      DropCountIs(buf, una);
      AboveDrops(buf, una);
      AboveAll(r, una);
      if Diff(una, buf[0].sn) > 0 {
        DropAhead(nxt, buf, una);
      } else {
        assert r == buf;
        DropBehind(nxt, buf, una);
      }
    }
  }

  // It does fail outside, on a state of every sender that has just flushed its first two segments:
  // with una 2^31 the set reading would remove the second, the loop removes nothing.
  lemma DropIsNotFilter(a: Segment, b: Segment)
    requires a.sn == 0 && b.sn == 1
    ensures SndInv(Snd(0, 2, [], [a, b]))
    ensures DropBelow([a, b], 0x8000_0000) == [a, b] != Above([a, b], 0x8000_0000)
  {
    AboveAll([a, b], 0x8000_0000);
    assert Diff(0x8000_0000, [a, b][1].sn) > 0;
  }

  // ---- unbounded indices ----

  // The index of the segment numbered `sn` when `top` serial numbers have been given out.
  function Index(top: nat, sn: u32): int {
    top - Dist(sn, Wrap(top))
  }

  lemma {:induction false} IndexOrder(top: nat, buf: seq<Segment>, una: int)
    requires InFlight(Wrap(top), buf)
    requires una <= top && top - una <= 0x8000_0000
    ensures var k := DropCount(buf, Wrap(una));
            && DropBelow(buf, Wrap(una)) == buf[k..]
            && (forall i :: 0 <= i < k ==> Index(top, buf[i].sn) < una)
            && (forall i :: k <= i < |buf| ==> Index(top, buf[i].sn) >= una)
  {
    var k := DropCount(buf, Wrap(una));
    DropCountIs(buf, Wrap(una));
    DistExact(una, top);
    forall i | 0 <= i < |buf|
      ensures Diff(Wrap(una), buf[i].sn) == una - Index(top, buf[i].sn)
    {
      WrapBack(top, buf[i].sn);
      DiffExact(una, Index(top, buf[i].sn));
    }
    forall i | k <= i < |buf| ensures Index(top, buf[i].sn) >= una {
      assert Index(top, buf[i].sn) >= Index(top, buf[k].sn);
    }
  }

  // A segment no older than `una` is kept.
  lemma KeptAbove(top: nat, buf: seq<Segment>, una: int, i: nat)
    requires InFlight(Wrap(top), buf) && una <= top && top - una <= 0x8000_0000
    requires i < |buf| && Index(top, buf[i].sn) >= una
    ensures buf[i] in DropBelow(buf, Wrap(una))
  {
    var k := DropCount(buf, Wrap(una));
    IndexOrder(top, buf, una);
    assert i >= k;
    assert buf[k..][i - k] == buf[i];
  }
}
