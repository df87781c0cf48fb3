/** The retransmission timers over whole runs: every segment in flight is the outcome of the
    flushes it has lived through, so its timeout is bounded by how often it has timed out. */
module Timers {
  import opened Words
  import opened Segments
  import opened Codec
  import opened Engine
  import opened Wrappers
  import opened Endpoint
  import opened FlushFacts
  import opened Retransmit
  import Schedule
  import S = SendWindow

  // ---- one flush ----

  // The segment with its bookkeeping at zero: what the peer sees of it, before it is sent.
  function Unsent(s: Segment): Segment {
    Segment(s.conv, s.cmd, s.frg, 0, 0, s.sn, 0, 0, 0, 0, 0, s.data)
  }

  lemma NotDueAfterTurn(s: Segment, p: Policy)
    requires 1 <= p.rxRto <= 60000
    requires s.xmit < 0xffff_ffff && (s.xmit == 0 || 1 <= s.rto <= 60000 * Pow2(14))
    ensures Attempt(s, p).seg.xmit >= 1 && Diff(p.current, Attempt(s, p).seg.resendts) < 0
  {
    Pow2Small(14);
    Pow2Small(15);
    if s.xmit == 0 { NotDue(p.current, p.rxRto, Grace(p)); } else { TurnBounds(s, p, 60000 * Pow2(14)); }
  }

  lemma TurnsNotDue(k: Kcb)
    requires Inv(k)
    requires forall s :: s in k.snd.buf ==> s.xmit < 0xffff_ffff && (s.xmit == 0 || 1 <= s.rto <= 60000 * Pow2(14))
    ensures forall s :: s in Segs(Turns(k)) ==> s.xmit >= 1 && Diff(k.clock.current, s.resendts) < 0
  {
    MovedKeeps(k);
    var before, buf, p := Moved(k).buf, Segs(Turns(k)), FlushPolicy(k);
    forall i | 0 <= i < |buf| ensures buf[i].xmit >= 1 && Diff(k.clock.current, buf[i].resendts) < 0 {
      if i < |k.snd.buf| { assert before[i] == k.snd.buf[i]; }
      NotDueAfterTurn(before[i], p);
    }
  }

  // After a flush every segment in flight has been sent and its next deadline lies ahead, as long
  // as none had a timeout beyond that of 14 doublings.
  lemma NothingLeftDue(k: Kcb)
    requires Inv(k) && k.clock.updated
    requires forall s :: s in k.snd.buf ==> s.xmit < 0xffff_ffff && (s.xmit == 0 || 1 <= s.rto <= 60000 * Pow2(14))
    ensures forall s :: s in Flush(k).0.snd.buf ==> s.xmit >= 1 && Diff(k.clock.current, s.resendts) < 0
  {
    TurnsNotDue(k);
    assert Flush(k).0.snd.buf == Segs(Turns(k));
  }

  // ---- a segment in flight and the flushes of a run ----

  // The state a flush starts in: an update has set the clock by then.
  function Flushing(k: Kcb, e: Event): Kcb {
    match e
    case UpdateEv(now) => k.(clock := Schedule.Update(k.clock, k.cfg.interval, now).clock)
    case _ => k
  }

  // The visit a flush pays to the segment numbered `sn`: its policy, and the skips counted by then.
  function VisitOf(k: Kcb, e: Event, sn: u32): Visit {
    var i := S.Find(k.snd.buf, sn);
    Visit(FlushPolicy(Flushing(k, e)), if i < |k.snd.buf| then k.snd.buf[i].fastack else 0)
  }

  // The visits after one more call, from the state `t` before it and the visits `vs` up to then.
  function VisitsOn(t: Kcb, e: Event, sn: u32, vs: seq<Visit>): seq<Visit> {
    if !Flushes(t, e) then vs
    else if S.Find(t.snd.buf, sn) < |t.snd.buf| then vs + [VisitOf(t, e, sn)]
    else [VisitOf(t, e, sn)]
  }

  // The visits of all flushes of a run since the segment numbered `sn` was last admitted.
  function Visits(k: Kcb, es: seq<Event>, sn: u32): seq<Visit>
    requires 24 < k.cfg.mtu
  {
    if es == [] then []
    else
      var front, e := es[..|es| - 1], es[|es| - 1];
      VisitsOn(Run(k, front), e, sn, Visits(k, front, sn))
  }

  // The segment is what its visits have made of it.
  ghost predicate Lived(x: Segment, vs: seq<Visit>) {
    && vs != [] && (forall i :: 0 <= i < |vs| ==> Sane(vs[i]))
    && x == AfterVisits(Unsent(x), vs).(fastack := x.fastack)
  }

  ghost predicate AllLived(k: Kcb, es: seq<Event>)
    requires 24 < k.cfg.mtu
  {
    forall x :: x in Run(k, es).snd.buf ==> Lived(x, Visits(k, es, x.sn))
  }

  // A first transmission depends on nothing but what the peer sees.
  lemma FirstVisit(y: Segment, v: Visit)
    requires y.xmit == 0 && y.fastack == 0 && v.fastack == 0 && Sane(v)
    ensures Lived(Attempt(y, v.policy).seg, [v])
  {
    var x, s := Attempt(y, v.policy).seg, Unsent(y);
    assert [v][..0] == [] && AfterVisits(s, []) == s;
    assert AfterVisits(s, [v]) == Attempt(s, v.policy).seg;
    assert Unsent(x) == s;
  }

  lemma NextVisit(y: Segment, vs: seq<Visit>, v: Visit)
    requires Lived(y, vs) && v.fastack == y.fastack && Sane(v)
    ensures Lived(Attempt(y, v.policy).seg, vs + [v])
  {
    assert (vs + [v])[..|vs|] == vs;
    AttemptKeeps(y, v.policy);
    assert AfterVisits(Unsent(y), vs).(fastack := v.fastack) == y;
  }

  // Serial numbers in the buffer are distinct, so the search finds the segment itself.
  lemma FindIndex(nxt: u32, buf: seq<Segment>, i: nat)
    requires S.InFlight(nxt, buf) && i < |buf|
    ensures S.Find(buf, buf[i].sn) == i
  {
  }

  lemma FindFront(nxt: u32, buf: seq<Segment>, n: nat, i: nat)
    requires S.InFlight(nxt, buf) && n <= i < |buf|
    ensures S.Find(buf[..n], buf[i].sn) == n
  {
    assert forall j :: 0 <= j < n ==> buf[..n][j] == buf[j];
  }

  // The buffer the flush loop walks over: what was in flight, then what is admitted.
  lemma FlushStart(k: Kcb)
    requires Inv(k)
    ensures var moved, n := Moved(k).buf, |k.snd.buf|;
            && S.InFlight(Moved(k).nxt, moved) && n <= |moved| && moved[..n] == k.snd.buf
            && (forall i :: n <= i < |moved| ==> moved[i].xmit == 0 && moved[i].fastack == 0)
  {
    MovedKeeps(k);
  }

  lemma FlushTurn(t: Kcb, e: Event, i: nat)
    requires Inv(t) && Flushes(t, e) && i < |Step(t, e).snd.buf|
    ensures var k := Flushing(t, e);
            && i < |Moved(k).buf| && Inv(k) && k.snd == t.snd
            && Step(t, e).snd.buf[i] == Attempt(Moved(k).buf[i], FlushPolicy(k)).seg
  {
  }

  lemma OldLived(t: Kcb, e: Event, i: nat, vs: seq<Visit>)
    requires Inv(t) && i < |t.snd.buf| && Lived(t.snd.buf[i], vs)
    ensures var x := Attempt(t.snd.buf[i], FlushPolicy(Flushing(t, e))).seg;
            && S.Find(t.snd.buf, x.sn) < |t.snd.buf| && x.sn == t.snd.buf[i].sn
            && Lived(x, vs + [VisitOf(t, e, x.sn)])
  {
    var y, p := t.snd.buf[i], FlushPolicy(Flushing(t, e));
    AttemptKeeps(y, p);
    FindIndex(t.snd.nxt, t.snd.buf, i);
    NextVisit(y, vs, VisitOf(t, e, y.sn));
  }

  lemma NewLived(t: Kcb, e: Event, moved: seq<Segment>, nxt: u32, i: nat)
    requires Inv(t) && |t.snd.buf| <= i < |moved| && moved[..|t.snd.buf|] == t.snd.buf
    requires S.InFlight(nxt, moved) && moved[i].xmit == 0 && moved[i].fastack == 0
    ensures var x := Attempt(moved[i], FlushPolicy(Flushing(t, e))).seg;
            && S.Find(t.snd.buf, x.sn) == |t.snd.buf|
            && Lived(x, [VisitOf(t, e, x.sn)])
  {
    var y, p := moved[i], FlushPolicy(Flushing(t, e));
    AttemptKeeps(y, p);
    FindFront(nxt, moved, |t.snd.buf|, i);
    FirstVisit(y, VisitOf(t, e, y.sn));
  }

  // One flush, seen from one of the segments it leaves.
  lemma FlushLived(t: Kcb, e: Event, i: nat, vs: seq<Visit>)
    requires Inv(t) && Flushes(t, e) && i < |Step(t, e).snd.buf|
    requires i < |t.snd.buf| ==> Lived(t.snd.buf[i], vs)
    ensures var x := Step(t, e).snd.buf[i];
            && (S.Find(t.snd.buf, x.sn) < |t.snd.buf| <==> i < |t.snd.buf|)
            && (i < |t.snd.buf| ==> x.sn == t.snd.buf[i].sn && Lived(x, vs + [VisitOf(t, e, x.sn)]))
            && (i >= |t.snd.buf| ==> Lived(x, [VisitOf(t, e, x.sn)]))
  {
    var k := Flushing(t, e);
    FlushTurn(t, e, i);
    FlushStart(k);
    if i < |t.snd.buf| {
      assert Moved(k).buf[i] == Moved(k).buf[..|t.snd.buf|][i];
      OldLived(t, e, i, vs);
    } else {
      NewLived(t, e, Moved(k).buf, Moved(k).nxt, i);
    }
  }

  // What is received removes segments or counts skips.
  lemma InputLived(t: Kcb, data: Bytes, x: Segment) returns (y: Segment)
    requires Inv(t) && x in Input(t, data).0.snd.buf
    ensures y in t.snd.buf && x == y.(fastack := x.fastack)
  {
    y := x;
    if |data| >= 24 {
      var scan := Parse(t.cfg.conv, data);
      OnWiresKeeps(t, scan.segs);
      if scan.code == 0 { y := FinishLived(OnWires(t, scan.segs), t.snd.una, MaxAck(None, scan.segs), x); }
    }
  }

  lemma FinishLived(t: Kcb, prevUna: u32, maxack: Option<u32>, x: Segment) returns (y: Segment)
    requires 24 < t.cfg.mtu && x in Finish(t, prevUna, maxack).snd.buf
    ensures y in t.snd.buf && x == y.(fastack := x.fastack)
  {
    var r := Finish(t, prevUna, maxack).snd.buf;
    var i :| 0 <= i < |r| && r[i] == x;
    y := t.snd.buf[i];
  }

  lemma OtherLived(t: Kcb, e: Event, x: Segment) returns (y: Segment)
    requires Inv(t) && !Flushes(t, e) && x in Step(t, e).snd.buf
    ensures y in t.snd.buf && x == y.(fastack := x.fastack)
  {
    match e
    case InputEv(data) => y := InputLived(t, data, x);
    case _ => y := x;
  }

  lemma CallLived(t: Kcb, e: Event, x: Segment, y: Segment, vs: seq<Visit>)
    requires Inv(t) && !Flushes(t, e) && Lived(y, vs) && x == y.(fastack := x.fastack)
    ensures Lived(x, VisitsOn(t, e, x.sn, vs))
  {
    assert Unsent(x) == Unsent(y);
  }

  lemma StepLived(k: Kcb, es: seq<Event>, x: Segment)
    requires 24 < k.cfg.mtu && es != [] && Inv(Run(k, es[..|es| - 1]))
    requires AllLived(k, es[..|es| - 1]) && x in Run(k, es).snd.buf
    ensures Lived(x, Visits(k, es, x.sn))
  {
    var front, e := es[..|es| - 1], es[|es| - 1];
    var t, vs := Run(k, front), Visits(k, front, x.sn);
    assert Visits(k, es, x.sn) == VisitsOn(t, e, x.sn, vs);
    if Flushes(t, e) {
      var i :| 0 <= i < |Step(t, e).snd.buf| && Step(t, e).snd.buf[i] == x;
      if i < |t.snd.buf| { assert t.snd.buf[i] in t.snd.buf; }
      FlushLived(t, e, i, if i < |t.snd.buf| then Visits(k, front, t.snd.buf[i].sn) else []);
    } else {
      var y := OtherLived(t, e, x);
      CallLived(t, e, x, y, vs);
    }
  }

  // In every run, for any bytes received, every segment in flight is what the visits of the
  // run's flushes since its admission have made of it.
  lemma {:induction false} RunIsVisits(cfg: Config, es: seq<Event>)
    requires ConfigOk(cfg)
    ensures AllLived(Create(cfg), es)
  {
    if es != [] {
      EveryRun(cfg, es[..|es| - 1]);
      RunIsVisits(cfg, es[..|es| - 1]);
      forall x | x in Run(Create(cfg), es).snd.buf ensures Lived(x, Visits(Create(cfg), es, x.sn)) {
        StepLived(Create(cfg), es, x);
      }
    }
  }

  // ---- the bounds over runs ----

  // A segment that has timed out at most 15 times, as its visits tell.
  ghost predicate Within(x: Segment, vs: seq<Visit>) {
    |vs| < 0x1_0000_0000 && TimeoutCount(Unsent(x), vs) <= 15
  }

  // What k <= 15 timeouts make of a timeout: at most 60000 * 2^k, and without `nodelay` at least
  // 2^k times the first one, `rx_rto` as it was when the segment was first sent.
  ghost predicate Bounded(x: Segment, vs: seq<Visit>, nodelay: u32) {
    var k := TimeoutCount(Unsent(x), vs);
    && vs != [] && 1 <= x.xmit <= |vs|
    && 1 <= x.rto <= 60000 * Pow2(k) < 0x8000_0000
    && (nodelay == 0 ==> x.rto >= vs[0].policy.rxRto * Pow2(k))
  }

  lemma {:induction false} VisitsNodelay(k: Kcb, es: seq<Event>, sn: u32)
    requires 24 < k.cfg.mtu
    ensures forall i :: 0 <= i < |Visits(k, es, sn)| ==> Visits(k, es, sn)[i].policy.nodelay == k.cfg.nodelay
  {
    if es != [] { VisitsNodelay(k, es[..|es| - 1], sn); }
  }

  lemma LastVisit(k: Kcb, es: seq<Event>, sn: u32)
    requires 24 < k.cfg.mtu
    ensures es != [] && Flushes(Run(k, es[..|es| - 1]), es[|es| - 1]) && Visits(k, es, sn) != [] ==>
              Visits(k, es, sn)[|Visits(k, es, sn)| - 1].policy.current == Run(k, es).clock.current
  {
  }

  // In every run, for any bytes received, the timeout of every segment in flight is bounded by how
  // often it has timed out; and when the last call was a flush, the segment is not due.
  lemma TimersOverRun(cfg: Config, es: seq<Event>, x: Segment)
    requires ConfigOk(cfg) && x in Run(Create(cfg), es).snd.buf
    requires Within(x, Visits(Create(cfg), es, x.sn))
    ensures Bounded(x, Visits(Create(cfg), es, x.sn), cfg.nodelay)
    ensures es != [] && Flushes(Run(Create(cfg), es[..|es| - 1]), es[|es| - 1]) ==>
              Diff(Run(Create(cfg), es).clock.current, x.resendts) < 0
  {
    var vs := Visits(Create(cfg), es, x.sn);
    RunIsVisits(cfg, es);
    VisitsNodelay(Create(cfg), es, x.sn);
    LastVisit(Create(cfg), es, x.sn);
    TimerBounds(Unsent(x), vs);
  }
}
