/** The decision `ikcp_flush` takes for each segment in flight: first transmission, retransmission
    on timeout, fast retransmission, or nothing. */
module Retransmit {
  import opened Words
  import opened Segments

  /** What the flush loop knows besides the segment. */
  datatype Policy = Policy(
    current: u32, rxRto: u32, nodelay: u32, resent: u32, fastlimit: int, wnd: u32, una: u32)

  datatype Turn = Turn(seg: Segment, sent: bool, timeout: bool, fast: bool)

  function Backoff(rto: u32, p: Policy): u32 {
    if p.nodelay == 0 then Add(rto, Max(rto, p.rxRto))
    else Wrap(rto + TruncDiv(Int32(if p.nodelay < 2 then rto else p.rxRto), 2))
  }

  function Grace(p: Policy): u32 {
    if p.nodelay == 0 then p.rxRto / 8 else 0
  }

  function MarkSent(s: Segment, p: Policy): Segment {
    s.(ts := p.current, wnd := p.wnd, una := p.una)
  }

  function Attempt(s: Segment, p: Policy): Turn {
    if s.xmit == 0 then
      var resendts := Add(Add(p.current, p.rxRto), Grace(p));
      Turn(MarkSent(s.(xmit := 1, rto := p.rxRto, resendts := resendts), p), true, false, false)
    else if Diff(p.current, s.resendts) >= 0 then
      var rto := Backoff(s.rto, p);
      Turn(MarkSent(s.(xmit := Add(s.xmit, 1), rto := rto, resendts := Add(p.current, rto)), p), true, true, false)
    else if s.fastack >= p.resent && (Int32(s.xmit) <= p.fastlimit || p.fastlimit <= 0) then
      Turn(MarkSent(s.(xmit := Add(s.xmit, 1), fastack := 0, resendts := Add(p.current, s.rto)), p), true, false, true)
    else
      Turn(s, false, false, false)
  }

  function Attempts(buf: seq<Segment>, p: Policy): (ts: seq<Turn>)
    ensures |ts| == |buf|
    ensures forall i :: 0 <= i < |buf| ==> ts[i] == Attempt(buf[i], p)
  {
    seq(|buf|, i requires 0 <= i < |buf| => Attempt(buf[i], p))
  }

  function Segs(ts: seq<Turn>): (buf: seq<Segment>)
    ensures |buf| == |ts|
    ensures forall i :: 0 <= i < |ts| ==> buf[i] == ts[i].seg
  {
    seq(|ts|, i requires 0 <= i < |ts| => ts[i].seg)
  }

  // The segments written, in buffer order.
  function SentWires(ts: seq<Turn>): seq<Wire> {
    if ts == [] then []
    else (if ts[0].sent then [ToWire(ts[0].seg)] else []) + SentWires(ts[1..])
  }

  function Timeouts(ts: seq<Turn>): nat {
    if ts == [] then 0 else (if ts[0].timeout then 1 else 0) + Timeouts(ts[1..])
  }

  predicate AnyFast(ts: seq<Turn>) {
    ts != [] && (ts[0].fast || AnyFast(ts[1..]))
  }

  predicate AnyTimeout(ts: seq<Turn>) {
    ts != [] && (ts[0].timeout || AnyTimeout(ts[1..]))
  }

  predicate AnyDead(ts: seq<Turn>, limit: u32) {
    ts != [] && ((ts[0].sent && ts[0].seg.xmit >= limit) || AnyDead(ts[1..], limit))
  }

  lemma {:induction false} FastIs(ts: seq<Turn>)
    ensures AnyFast(ts) <==> exists i :: 0 <= i < |ts| && ts[i].fast
  {
    if ts != [] {
      var rest := ts[1..];
      FastIs(rest);
      if i :| 0 <= i < |rest| && rest[i].fast { assert ts[i + 1].fast; }
      if i :| 0 < i < |ts| && ts[i].fast { assert rest[i - 1].fast; }
    }
  }

  lemma {:induction false} TimeoutIs(ts: seq<Turn>)
    ensures AnyTimeout(ts) <==> exists i :: 0 <= i < |ts| && ts[i].timeout
  {
    if ts != [] {
      var rest := ts[1..];
      TimeoutIs(rest);
      if i :| 0 <= i < |rest| && rest[i].timeout { assert ts[i + 1].timeout; }
      if i :| 0 < i < |ts| && ts[i].timeout { assert rest[i - 1].timeout; }
    }
  }

  lemma {:induction false} DeadIs(ts: seq<Turn>, limit: u32)
    ensures AnyDead(ts, limit) <==> exists i :: 0 <= i < |ts| && ts[i].sent && ts[i].seg.xmit >= limit
  {
    if ts != [] {
      var rest := ts[1..];
      DeadIs(rest, limit);
      if i :| 0 <= i < |rest| && rest[i].sent && rest[i].seg.xmit >= limit { assert ts[i + 1].sent; }
      if i :| 0 < i < |ts| && ts[i].sent && ts[i].seg.xmit >= limit { assert rest[i - 1].sent; }
    }
  }

  /** What a flush notes along the way: the retransmission counter, whether a segment reached the
      dead-link limit, whether there was a fast retransmission, whether there was a timeout. */
  datatype Findings = Findings(xmit: u32, dead: bool, fast: bool, timeout: bool)

  function Note(f: Findings, t: Turn, limit: u32): Findings {
    Findings(if t.timeout then Add(f.xmit, 1) else f.xmit, f.dead || (t.sent && t.seg.xmit >= limit),
             f.fast || t.fast, f.timeout || t.timeout)
  }

  function NoteAll(f: Findings, ts: seq<Turn>, limit: u32): Findings
    decreases |ts|
  {
    if ts == [] then f else NoteAll(Note(f, ts[0], limit), ts[1..], limit)
  }

  lemma CountOne(x: u32, n: nat)
    ensures Wrap(x + (1 + n)) == Wrap(Add(x, 1) + n)
  {
    WrapSmall(x);
    AddWrap(x, 1);
    WrapPlus(x + 1, n);
  }

  lemma {:induction false} NoteAllIs(f: Findings, ts: seq<Turn>, limit: u32)
    ensures NoteAll(f, ts, limit) ==
            Findings(Wrap(f.xmit + Timeouts(ts)), f.dead || AnyDead(ts, limit), f.fast || AnyFast(ts),
                     f.timeout || AnyTimeout(ts))
    decreases |ts|
  {
    if ts == [] {
      WrapSmall(f.xmit);
    } else {
      NoteAllIs(Note(f, ts[0], limit), ts[1..], limit);
      if ts[0].timeout { CountOne(f.xmit, Timeouts(ts[1..])); }
    }
  }

  // What remains to be visited after one more turn.
  lemma OneMore(ts: seq<Turn>, i: nat)
    requires i < |ts|
    ensures ts[i..][0] == ts[i] && ts[i..][1..] == ts[i + 1..]
    ensures SentWires(ts[i..]) == (if ts[i].sent then [ToWire(ts[i].seg)] else []) + SentWires(ts[i + 1..])
  {
  }

  // A visit never touches what the peer relies on.
  lemma AttemptKeeps(s: Segment, p: Policy)
    ensures var t := Attempt(s, p);
            && t.seg.sn == s.sn && FragOf(t.seg) == FragOf(s) && t.seg.conv == s.conv && t.seg.cmd == s.cmd
            && (t.sent ==> t.seg.una == p.una && t.seg.ts == p.current && t.seg.wnd == p.wnd)
            && (!t.sent ==> t.seg == s)
  {
  }

  // ---- one segment over a whole run of flushes ----

  /** A flush that meets the segment, with the skip count it has by then. */
  datatype Visit = Visit(policy: Policy, fastack: u32)

  function TurnAt(s: Segment, vs: seq<Visit>): Turn
    requires vs != []
    decreases |vs|, 0
  {
    var v := vs[|vs| - 1];
    Attempt(AfterVisits(s, vs[..|vs| - 1]).(fastack := v.fastack), v.policy)
  }

  function AfterVisits(s: Segment, vs: seq<Visit>): Segment
    decreases |vs|, 1
  {
    if vs == [] then s else TurnAt(s, vs).seg
  }

  function TimeoutCount(s: Segment, vs: seq<Visit>): nat {
    if vs == [] then 0
    else TimeoutCount(s, vs[..|vs| - 1]) + if TurnAt(s, vs).timeout then 1 else 0
  }

  function Pow2(k: nat): (r: int)
    ensures r >= 1
  {
    if k == 0 then 1 else 2 * Pow2(k - 1)
  }

  lemma {:induction false} Pow2Mono(a: nat, b: nat)
    requires a <= b
    ensures Pow2(a) <= Pow2(b)
  {
    if a < b { Pow2Mono(a, b - 1); }
  }

  lemma Pow2At15()
    ensures Pow2(15) == 32768
  {
    assert Pow2(5) == 32;
    assert Pow2(10) == 32 * Pow2(5);
    assert Pow2(15) == 32 * Pow2(10);
  }

  ghost predicate Sane(v: Visit) {
    1 <= v.policy.rxRto <= 60000
  }

  // One timeout at most doubles a timeout bounded by b >= 60000, and without `nodelay` at least doubles it.
  lemma BackoffBounds(rto: u32, p: Policy, b: int)
    requires 1 <= p.rxRto <= 60000 <= b && rto <= b && 2 * b < 0x8000_0000
    ensures rto <= Backoff(rto, p) <= 2 * b
    ensures p.nodelay == 0 ==> Backoff(rto, p) >= 2 * rto
  {
    Int32Small(rto);
    Int32Small(p.rxRto);
    WrapSmall(rto + rto / 2);
    WrapSmall(rto + p.rxRto / 2);
  }

  // One visit to a segment that has been sent before.
  lemma TurnBounds(q: Segment, p: Policy, b: int)
    requires 1 <= p.rxRto <= 60000 <= b && 1 <= q.rto <= b && 1 <= q.xmit < 0xffff_ffff
    requires (if Attempt(q, p).timeout then 2 * b else b) < 0x8000_0000
    ensures var t := Attempt(q, p);
            && 1 <= t.seg.xmit <= q.xmit + 1
            && 1 <= t.seg.rto <= (if t.timeout then 2 * b else b)
            && (p.nodelay == 0 ==> t.seg.rto >= if t.timeout then 2 * q.rto else q.rto)
            && Diff(p.current, t.seg.resendts) < 0
  {
    NotDue(p.current, q.rto, 0);
    if Attempt(q, p).timeout {
      BackoffBounds(q.rto, p, b);
      NotDue(p.current, Attempt(q, p).seg.rto, 0);
    }
  }

  lemma Pow2Small(k: nat)
    requires k <= 15
    ensures 60000 <= 60000 * Pow2(k) < 0x8000_0000
  {
    Pow2At15();
    Pow2Mono(k, 15);
  }

  // After every flush that meets it the segment has been sent, its next deadline is not yet due,
  // and after k <= 15 timeouts its timeout is at most 60000 * 2^k; without `nodelay` it is at
  // least 2^k times the first one.
  lemma {:induction false} TimerBounds(s: Segment, vs: seq<Visit>)
    requires s.xmit == 0 && vs != [] && |vs| < 0x1_0000_0000
    requires forall i :: 0 <= i < |vs| ==> Sane(vs[i])
    requires TimeoutCount(s, vs) <= 15
    ensures var t, k, p := AfterVisits(s, vs), TimeoutCount(s, vs), vs[|vs| - 1].policy;
            && 1 <= t.xmit <= |vs|
            && 1 <= t.rto <= 60000 * Pow2(k) < 0x8000_0000
            && ((forall i :: 0 <= i < |vs| ==> vs[i].policy.nodelay == 0) ==> t.rto >= vs[0].policy.rxRto * Pow2(k))
            && Diff(p.current, t.resendts) < 0
  {
    var front, v := vs[..|vs| - 1], vs[|vs| - 1];
    var k, j := TimeoutCount(s, vs), TimeoutCount(s, front);
    Pow2Small(k);
    if front == [] {
      assert k == 0 && Pow2(0) == 1;
      NotDue(v.policy.current, v.policy.rxRto, Grace(v.policy));
    } else {
      TimerBounds(s, front);
      Pow2Small(j);
      var q := AfterVisits(s, front).(fastack := v.fastack);
      assert TurnAt(s, vs) == Attempt(q, v.policy);
      assert k == if TurnAt(s, vs).timeout then j + 1 else j;
      TurnBounds(q, v.policy, 60000 * Pow2(j));
      if TurnAt(s, vs).timeout { DoubleBound(vs[0].policy.rxRto, k, q.rto, TurnAt(s, vs).seg.rto); }
    }
  }

  lemma DoubleBound(first: u32, k: nat, rto: int, next: int)
    requires k > 0
    ensures rto >= first * Pow2(k - 1) && next >= 2 * rto ==> next >= first * Pow2(k)
  {
    assert first * Pow2(k) == 2 * (first * Pow2(k - 1));
  }

  lemma NotDue(now: u32, rto: u32, grace: u32)
    requires 1 <= rto + grace <= 0x8000_0000
    ensures Diff(now, Add(Add(now, rto), grace)) < 0
  {
  }
}
