/** The numbers behind the calls of one endpoint: what an input makes of the estimator, of what is in
    flight and of the congestion window, what a flush admits and what it makes of each segment, of
    the counters and of the congestion window, and when the next call is needed.  Everything is
    stated on the fields before and after the call. */
module Outcomes {
  import opened Words
  import opened Segments
  import opened Codec
  import opened Engine
  import opened Endpoint
  import opened Packing
  import opened Wrappers
  import Congestion
  import Probe
  import Retransmit
  import Rtt
  import Schedule
  import S = SendWindow
  import R = RecvWindow

  // ---- the start state ----

  // What a new control block holds: windows of nothing in flight and nothing received, a timeout of
  // 200, a threshold of 2, the peer's window taken as 128, and the clock not started.
  lemma CreateIs(cfg: Config)
    ensures var k := Create(cfg);
            && k.snd == S.Snd(0, 0, [], []) && k.rcv == R.Rcv(0, [], [], [])
            && k.rtt.srtt == 0 && k.rtt.rttval == 0 && k.rtt.rto == 200
            && k.cong.cwnd == 0 && k.cong.incr == 0 && k.cong.ssthresh == 2
            && k.prober.rmt == 128 && !k.prober.ask && !k.prober.tell && k.prober.wait == 0
            && !k.clock.updated && k.state == 0 && k.xmit == 0
  {
  }

  // ---- the round trips an input measures ----

  // The round trip an acknowledgement reports at time |now|, if its timestamp is not ahead of it.
  function Echo(w: Wire, now: u32): seq<int> {
    if w.cmd == 82 && Diff(now, w.ts) >= 0 then [Diff(now, w.ts)] else []
  }

  function Echoes(ws: seq<Wire>, now: u32): seq<int>
    decreases |ws|
  {
    if ws == [] then [] else Echo(ws[0], now) + Echoes(ws[1..], now)
  }

  lemma EchoOne(k: Kcb, w: Wire)
    ensures OnWire(k, w).rtt == Rtt.Samples(k.rtt, k.cfg.minrto, k.cfg.interval, Echo(w, k.clock.current))
  {
    var d := Diff(k.clock.current, w.ts);
    assert Rtt.Samples(k.rtt, k.cfg.minrto, k.cfg.interval, [d][..0]) == k.rtt;
  }

  lemma {:induction false} WiresEchoes(k: Kcb, ws: seq<Wire>)
    ensures OnWires(k, ws).rtt == Rtt.Samples(k.rtt, k.cfg.minrto, k.cfg.interval, Echoes(ws, k.clock.current))
    decreases |ws|
  {
    if ws != [] {
      var now := k.clock.current;
      EchoOne(k, ws[0]);
      WiresEchoes(OnWire(k, ws[0]), ws[1..]);
      Rtt.SamplesConcat(k.rtt, k.cfg.minrto, k.cfg.interval, Echo(ws[0], now), Echoes(ws[1..], now));
    }
  }

  // Whatever the bytes, the estimator takes exactly these samples from the segments accepted.
  lemma InputSamples(k: Kcb, data: Bytes)
    requires 24 < k.cfg.mtu
    ensures var now := k.clock.current;
            Input(k, data).0.rtt ==
              Rtt.Samples(k.rtt, k.cfg.minrto, k.cfg.interval, Echoes(Parse(k.cfg.conv, data).segs, now))
  {
    WiresEchoes(k, Parse(k.cfg.conv, data).segs);
  }

  // The round trips measured by one call.
  function CallEchoes(k: Kcb, e: Event): seq<int> {
    if e.InputEv? then Echoes(Parse(k.cfg.conv, e.data).segs, k.clock.current) else []
  }

  // The round trips measured in a run.
  function RunEchoes(k: Kcb, es: seq<Event>): seq<int>
    requires 24 < k.cfg.mtu
  {
    if es == [] then []
    else RunEchoes(k, es[..|es| - 1]) + CallEchoes(Run(k, es[..|es| - 1]), es[|es| - 1])
  }

  lemma StepEchoes(k: Kcb, e: Event)
    requires 24 < k.cfg.mtu
    ensures Step(k, e).rtt == Rtt.Samples(k.rtt, k.cfg.minrto, k.cfg.interval, CallEchoes(k, e))
  {
    match e
    case InputEv(data) => InputSamples(k, data);
    case _ =>
  }

  // Over a whole run nothing else moves the estimator.
  lemma {:induction false} RunSamples(k: Kcb, es: seq<Event>)
    requires 24 < k.cfg.mtu
    ensures Run(k, es).rtt == Rtt.Samples(k.rtt, k.cfg.minrto, k.cfg.interval, RunEchoes(k, es))
  {
    if es != [] {
      var front, e := es[..|es| - 1], es[|es| - 1];
      var t := Run(k, front);
      RunSamples(k, front);
      StepEchoes(t, e);
      Rtt.SamplesConcat(k.rtt, k.cfg.minrto, k.cfg.interval, RunEchoes(k, front), CallEchoes(t, e));
    }
  }

  // Every run whose round trips lie between |lo| and |hi|, below 2^28: the estimator is the one over
  // unbounded integers, the smoothed value lies between the two as well, and the timeout is what it
  // should be.
  lemma RunEstimates(cfg: Config, es: seq<Event>, rtts: seq<int>, lo: nat, hi: nat)
    requires ConfigOk(cfg) && 1 <= hi < 0x1000_0000
    requires rtts == RunEchoes(Create(cfg), es) && forall i :: 0 <= i < |rtts| ==> lo <= rtts[i] <= hi
    ensures Rtt.Estimates(Run(Create(cfg), es).rtt, cfg.minrto, cfg.interval, rtts, lo, hi)
  {
    RunSamples(Create(cfg), es);
    Rtt.SamplesEstimate(cfg.minrto, cfg.interval, rtts, lo, hi);
  }

  // ---- what else an input does ----

  // The code: -1 for a datagram shorter than a header, else 0 or the reason why the parser stopped.
  lemma InputCode(k: Kcb, data: Bytes)
    requires 24 < k.cfg.mtu
    ensures Input(k, data).1 == if |data| < 24 then -1 else Parse(k.cfg.conv, data).code
  {
  }

  lemma {:induction false} WiresWindow(k: Kcb, ws: seq<Wire>)
    ensures OnWires(k, ws).prober.rmt == if ws == [] then k.prober.rmt else ws[|ws| - 1].wnd
    decreases |ws|
  {
    if ws != [] { WiresWindow(OnWire(k, ws[0]), ws[1..]); }
  }

  // The peer's window is what the last accepted segment says.
  lemma InputWindow(k: Kcb, data: Bytes)
    requires 24 < k.cfg.mtu
    ensures var ws := Parse(k.cfg.conv, data).segs;
            Input(k, data).0.prober.rmt == if ws == [] then k.prober.rmt else ws[|ws| - 1].wnd
  {
    WiresWindow(k, Parse(k.cfg.conv, data).segs);
  }

  lemma SkipCarries(s: S.Snd, sn: u32, x: u32)
    ensures S.CarriedBy(S.TakeFastAck(s, sn).buf, x) <==> S.CarriedBy(s.buf, x)
  {
    var r := S.ScanSkip(s.buf, sn);
    assert forall i :: 0 <= i < |r| ==> r[i].sn == s.buf[i].sn;
  }

  // Accepted or half-rejected, a datagram takes out of flight exactly the serial numbers below the
  // `una` of one of its accepted segments and those it acknowledges, when no `una` is far behind.
  lemma InputReleases(k: Kcb, data: Bytes, x: u32)
    requires Inv(k)
    requires forall w :: w in Parse(k.cfg.conv, data).segs ==> Diff(w.una, k.snd.una) >= -0x7fff_0000
    ensures S.CarriedBy(Input(k, data).0.snd.buf, x) <==>
              && S.CarriedBy(k.snd.buf, x)
              && forall w :: w in Parse(k.cfg.conv, data).segs ==>
                   Diff(w.una, x) <= 0 && !(w.cmd == 82 && w.sn == x)
  {
    var ws := Parse(k.cfg.conv, data).segs;
    forall i | 0 <= i < |ws| ensures Diff(ws[i].una, k.snd.una) >= -0x7fff_0000 { assert ws[i] in ws; }
    S.HeadSpan(k.snd.nxt, k.snd.buf);
    S.OnWiresReleases(k.snd.una, k.snd, ws, x);
    OnWiresCfg(k, ws);
    InputBuffer(k, data, x);
    assert (forall w :: w in ws ==> !S.Releases(w, x)) <==> forall i :: 0 <= i < |ws| ==> !S.Releases(ws[i], x);
  }

  lemma InputBuffer(k: Kcb, data: Bytes, x: u32)
    requires 24 < k.cfg.mtu
    ensures S.CarriedBy(Input(k, data).0.snd.buf, x) <==>
              S.CarriedBy(S.OnWires(k.snd, Parse(k.cfg.conv, data).segs).buf, x)
  {
    var ws := Parse(k.cfg.conv, data).segs;
    OnWiresCfg(k, ws);
    if MaxAck(None, ws).Some? { SkipCarries(OnWires(k, ws).snd, MaxAck(None, ws).value, x); }
  }

  // The congestion window moves only when the whole datagram was accepted, `snd_una` has advanced and
  // the window is below the peer's: by one segment below the threshold; from there on the byte
  // counter grows and the window follows it, up to the peer's.
  lemma InputCong(k: Kcb, data: Bytes, skips: nat)
    requires Counters(k, skips)
    ensures var t, mss := Input(k, data).0, k.cfg.mtu - 24;
            var c, d := k.cong, t.cong;
            && d.ssthresh == c.ssthresh
            && if Input(k, data).1 != 0 || Diff(t.snd.una, k.snd.una) <= 0 || c.cwnd >= t.prober.rmt then d == c
               else if c.cwnd < c.ssthresh then d.cwnd == c.cwnd + 1 && d.incr == c.incr + mss
               else
                 && c.incr > 0
                 && var incr: int := c.incr + (mss * mss / c.incr + mss / 16);
                    var cwnd: int := if (c.cwnd + 1) * mss <= incr then (incr + mss - 1) / mss else c.cwnd;
                    && d.cwnd as int == (if cwnd > t.prober.rmt as int then t.prober.rmt as int else cwnd)
                    && d.incr as int == (if cwnd > t.prober.rmt as int then t.prober.rmt * mss else incr)
  {
    OnWiresCfg(k, Parse(k.cfg.conv, data).segs);
    Congestion.GrowIs(k.cong, k.cfg.Mss(), Input(k, data).0.prober.rmt);
  }

  // ---- what a flush admits ----

  // Serial numbers in use, before and after: what is queued moves in, in order, as far as each of the
  // three windows allows, and stops for no other reason.
  ghost predicate Admits(s: S.Snd, t: S.Snd, sndWnd: u32, rmt: u32, cwnd: u32, nocwnd: bool) {
    var before: int, after: int := S.Span(s), S.Span(t);
    && t.una == s.una && before <= after <= before + |s.queue| && t.queue == s.queue[after - before..]
    && after <= Max(before, sndWnd) && after <= Max(before, rmt) && (!nocwnd ==> after <= Max(before, cwnd))
    && (t.queue != [] ==> after >= sndWnd || after >= rmt || (!nocwnd && after >= cwnd))
  }

  lemma BatchAdmits(s: S.Snd, st: S.Stamp, sndWnd: u32, rmt: u32, cwnd: u32, nocwnd: bool, window: u32)
    requires window == (if nocwnd then Min(sndWnd, rmt) else Min(cwnd, Min(sndWnd, rmt)))
    requires S.Span(S.Batch(s, window, st)) == S.Span(s) + S.Room(s, window)
    ensures Admits(s, S.Batch(s, window, st), sndWnd, rmt, cwnd, nocwnd)
  {
  }

  lemma SameAdmits(s: S.Snd, t: S.Snd, buf: seq<Segment>, sndWnd: u32, rmt: u32, cwnd: u32, nocwnd: bool)
    requires Admits(s, t, sndWnd, rmt, cwnd, nocwnd)
    ensures Admits(s, S.Snd(s.una, t.nxt, t.queue, buf), sndWnd, rmt, cwnd, nocwnd)
  {
  }

  lemma FlushSnd(k: Kcb)
    requires k.clock.updated
    ensures Flush(k).0.snd == S.Snd(k.snd.una, Moved(k).nxt, Moved(k).queue, Retransmit.Segs(Turns(k)))
  {
  }

  lemma MovedSpan(k: Kcb)
    requires Inv(k)
    ensures Moved(k) == S.Batch(k.snd, FlushWindow(k), FlushStamp(k))
    ensures S.Span(Moved(k)) == S.Span(k.snd) + S.Room(k.snd, FlushWindow(k))
  {
    FlushWindowSmall(k);
    S.MoveKeeps(k.snd, FlushWindow(k), FlushStamp(k));
  }

  // No flush puts more in flight than the configured window, the peer's window and the congestion
  // window allow, and none leaves anything queued that they have room for.
  lemma FlushAdmits(k: Kcb)
    requires Inv(k) && k.clock.updated
    ensures Admits(k.snd, Flush(k).0.snd, k.cfg.sndWnd, k.prober.rmt, k.cong.cwnd, k.cfg.nocwnd)
  {
    FlushSnd(k);
    MovedSpan(k);
    BatchAdmits(k.snd, FlushStamp(k), k.cfg.sndWnd, k.prober.rmt, k.cong.cwnd, k.cfg.nocwnd, FlushWindow(k));
    SameAdmits(k.snd, Moved(k), Retransmit.Segs(Turns(k)), k.cfg.sndWnd, k.prober.rmt, k.cong.cwnd, k.cfg.nocwnd);
  }

  // ---- what a flush makes of each segment ----

  // The segment has been sent before and its deadline has come.
  predicate TimedOut(k: Kcb, x: Segment) {
    x.xmit != 0 && Diff(k.clock.current, x.resendts) >= 0
  }

  // The segment has been sent before, is not due, and was skipped as often as it takes, without
  // having been sent too often already.
  predicate SkippedEnough(k: Kcb, x: Segment) {
    && x.xmit != 0 && Diff(k.clock.current, x.resendts) < 0
    && (if k.cfg.fastresend > 0 then x.fastack >= k.cfg.fastresend else x.fastack == 0xffff_ffff)
    && (k.cfg.fastlimit <= 0 || Int32(x.xmit) <= k.cfg.fastlimit)
  }

  predicate Goes(k: Kcb, x: Segment) {
    x.xmit == 0 || TimedOut(k, x) || SkippedEnough(k, x)
  }

  // The segment with the stamps of this flush.
  function Stamped(k: Kcb, x: Segment): Segment
    requires |k.rcv.queue| <= k.cfg.rcvWnd
  {
    x.(ts := k.clock.current, wnd := k.cfg.rcvWnd - |k.rcv.queue|, una := k.rcv.nxt)
  }

  // When a first transmission is to be repeated.
  function FirstDeadline(k: Kcb): u32 {
    Wrap(k.clock.current + k.rtt.rto + if k.cfg.nodelay == 0 then k.rtt.rto / 8 else 0)
  }

  // How much longer a segment waits after a timeout: without `nodelay` as long again, or as long as
  // the estimator says if that is more; with `nodelay` 1 half as long again; above that half of what
  // the estimator says.
  function Longer(k: Kcb, x: Segment): int {
    if k.cfg.nodelay == 0 then Max(x.rto, k.rtt.rto)
    else if k.cfg.nodelay == 1 then TruncDiv(Int32(x.rto), 2)
    else k.rtt.rto / 2
  }

  // What a flush makes of segment |x| in flight: it goes out for the first time, again after a
  // timeout, again because it was skipped, or stays as it is.
  ghost predicate Visited(k: Kcb, x: Segment, y: Segment)
    requires |k.rcv.queue| <= k.cfg.rcvWnd
  {
    if x.xmit == 0 then y == Stamped(k, x).(xmit := 1, rto := k.rtt.rto, resendts := FirstDeadline(k))
    else if TimedOut(k, x) then
      var rto := Wrap(x.rto + Longer(k, x));
      y == Stamped(k, x).(xmit := Wrap(x.xmit + 1), rto := rto, resendts := Wrap(k.clock.current + rto))
    else if SkippedEnough(k, x) then
      y == Stamped(k, x).(xmit := Wrap(x.xmit + 1), fastack := 0, resendts := Wrap(k.clock.current + x.rto))
    else y == x
  }

  lemma BackoffIs(k: Kcb, x: Segment)
    requires 1 <= k.rtt.rto <= 60000
    ensures Retransmit.Backoff(x.rto, FlushPolicy(k)) == Wrap(x.rto + Longer(k, x))
  {
    Int32Small(k.rtt.rto);
    AddWraps(x.rto, Max(x.rto, k.rtt.rto));
  }

  lemma AddWraps(a: u32, b: u32)
    ensures Add(a, b) == Wrap(a + b)
  {
    WrapSmall(a);
    AddWrap(a, b);
  }

  lemma DeadlineIs(k: Kcb)
    ensures var grace: u32 := if k.cfg.nodelay == 0 then k.rtt.rto / 8 else 0;
            Add(Add(k.clock.current, k.rtt.rto), grace) == FirstDeadline(k)
  {
    AddWraps(k.clock.current, k.rtt.rto);
    AddWrap(k.clock.current + k.rtt.rto, if k.cfg.nodelay == 0 then k.rtt.rto / 8 else 0);
  }

  lemma AttemptKind(k: Kcb, x: Segment)
    ensures var t := Retransmit.Attempt(x, FlushPolicy(k));
            (t.sent <==> Goes(k, x)) && (t.timeout <==> TimedOut(k, x)) && (t.fast <==> SkippedEnough(k, x))
  {
  }

  lemma AttemptVisits(k: Kcb, x: Segment)
    requires Inv(k)
    ensures Visited(k, x, Retransmit.Attempt(x, FlushPolicy(k)).seg)
  {
    DeadlineIs(k);
    BackoffIs(k, x);
    AttemptKind(k, x);
    AddWraps(x.xmit, 1);
    AddWraps(k.clock.current, x.rto);
    AddWraps(k.clock.current, Wrap(x.rto + Longer(k, x)));
  }

  // What a flush makes of a queued segment that it admits: data of this conversation under its serial
  // number, sent for the first time.
  function SentFirst(k: Kcb, q: Segment, sn: u32): Segment
    requires |k.rcv.queue| <= k.cfg.rcvWnd
  {
    Segment(k.cfg.conv, 81, q.frg, k.cfg.rcvWnd - |k.rcv.queue|, k.clock.current, sn, k.rcv.nxt, FirstDeadline(k),
            k.rtt.rto, 0, 1, q.data)
  }

  lemma MovedAt(k: Kcb, i: nat)
    requires Inv(k) && i < |Moved(k).buf|
    ensures |Moved(k).buf| == |k.snd.buf| + |k.snd.queue| - |Moved(k).queue|
    ensures i < |k.snd.buf| ==> Moved(k).buf[i] == k.snd.buf[i]
    ensures i >= |k.snd.buf| ==>
              var j := i - |k.snd.buf|;
              j < |k.snd.queue| && Moved(k).buf[i] == S.Admit(k.snd.queue[j], FlushStamp(k), Wrap(k.snd.nxt + j))
  {
    MovedSpan(k);
  }

  lemma AdmitVisits(k: Kcb, q: Segment, sn: u32)
    requires Inv(k)
    ensures var x := S.Admit(q, FlushStamp(k), sn);
            x.xmit == 0 && (forall y :: Visited(k, x, y) ==> y == SentFirst(k, q, sn))
  {
  }

  // What a flush leaves at position |i| of the send buffer: a segment that was in flight has had its
  // turn; the segments admitted follow in the order of the queue, numbered on, and sent.
  ghost predicate LeftAt(k: Kcb, i: nat, y: Segment)
    requires |k.rcv.queue| <= k.cfg.rcvWnd
  {
    if i < |k.snd.buf| then Visited(k, k.snd.buf[i], y)
    else
      var j := i - |k.snd.buf|;
      j < |k.snd.queue| && y == SentFirst(k, k.snd.queue[j], Wrap(k.snd.nxt + j))
  }

  lemma TurnAt(k: Kcb, i: nat)
    requires Inv(k) && i < |Moved(k).buf|
    ensures LeftAt(k, i, Retransmit.Attempt(Moved(k).buf[i], FlushPolicy(k)).seg)
  {
    MovedAt(k, i);
    AttemptVisits(k, Moved(k).buf[i]);
    if i >= |k.snd.buf| {
      var j := i - |k.snd.buf|;
      AdmitVisits(k, k.snd.queue[j], Wrap(k.snd.nxt + j));
    }
  }

  lemma BufferAfter(k: Kcb)
    requires Inv(k) && k.clock.updated
    ensures var t := Flush(k).0.snd;
            && |t.buf| == |Moved(k).buf| == |k.snd.buf| + |k.snd.queue| - |t.queue|
            && (forall i :: 0 <= i < |t.buf| ==> t.buf[i] == Retransmit.Attempt(Moved(k).buf[i], FlushPolicy(k)).seg)
  {
    FlushSnd(k);
    MovedSpan(k);
  }

  // The whole send buffer after a flush.
  lemma FlushVisits(k: Kcb)
    requires Inv(k) && k.clock.updated
    ensures var t := Flush(k).0.snd;
            && |t.buf| == |k.snd.buf| + |k.snd.queue| - |t.queue|
            && forall i :: 0 <= i < |t.buf| ==> LeftAt(k, i, t.buf[i])
  {
    BufferAfter(k);
    var buf := Flush(k).0.snd.buf;
    forall i | 0 <= i < |buf| ensures LeftAt(k, i, buf[i]) { TurnAt(k, i); }
  }

  // ---- what a flush concludes ----

  // How many segments have timed out.
  function TimeoutsAmong(k: Kcb, buf: seq<Segment>): nat {
    if buf == [] then 0 else (if TimedOut(k, buf[0]) then 1 else 0) + TimeoutsAmong(k, buf[1..])
  }

  lemma {:induction false} CountsTimeouts(k: Kcb, buf: seq<Segment>)
    ensures Retransmit.Timeouts(Retransmit.Attempts(buf, FlushPolicy(k))) == TimeoutsAmong(k, buf)
  {
    if buf != [] {
      var p := FlushPolicy(k);
      AttemptKind(k, buf[0]);
      assert Retransmit.Attempts(buf, p)[1..] == Retransmit.Attempts(buf[1..], p);
      CountsTimeouts(k, buf[1..]);
    }
  }

  lemma {:induction false} UnsentNeverTimeOut(k: Kcb, buf: seq<Segment>, add: seq<Segment>)
    requires forall i :: 0 <= i < |add| ==> add[i].xmit == 0
    ensures TimeoutsAmong(k, buf + add) == TimeoutsAmong(k, buf)
    decreases |buf| + |add|
  {
    if buf != [] {
      assert (buf + add)[1..] == buf[1..] + add;
      UnsentNeverTimeOut(k, buf[1..], add);
    } else if add != [] {
      assert buf + add == add && buf + add[1..] == add[1..];
      UnsentNeverTimeOut(k, [], add[1..]);
    } else {
      assert buf + add == [];
    }
  }

  lemma MovedCounts(k: Kcb)
    requires Inv(k)
    ensures TimeoutsAmong(k, Moved(k).buf) == TimeoutsAmong(k, k.snd.buf)
  {
    MovedSpan(k);
    var n := S.Room(k.snd, FlushWindow(k));
    UnsentNeverTimeOut(k, k.snd.buf, S.Admitted(k.snd.queue[..n], FlushStamp(k), k.snd.nxt));
  }

  lemma TurnsCount(k: Kcb)
    requires Inv(k)
    ensures Retransmit.Timeouts(Turns(k)) == TimeoutsAmong(k, k.snd.buf)
  {
    CountsTimeouts(k, Moved(k).buf);
    MovedCounts(k);
  }

  // The retransmission counter counts the |n| segments that have timed out, modulo 2^32.
  lemma FlushCounts(k: Kcb, n: nat)
    requires Inv(k) && k.clock.updated && n == TimeoutsAmong(k, k.snd.buf)
    ensures Flush(k).0.xmit == Wrap(k.xmit + n)
  {
    TurnsCount(k);
    XmitIs(k, n);
  }

  lemma XmitIs(k: Kcb, n: nat)
    requires k.clock.updated && Retransmit.Timeouts(Turns(k)) == n
    ensures Flush(k).0.xmit == Wrap(k.xmit + n)
  {
    XmitOf(k, n);
    assert Flush(k).0.xmit == XmitAfter(k);
  }

  lemma XmitOf(k: Kcb, n: nat)
    requires Retransmit.Timeouts(Turns(k)) == n
    ensures XmitAfter(k) == Wrap(k.xmit + n)
  {
  }

  lemma KindAt(k: Kcb, i: nat)
    requires Inv(k) && i < |Moved(k).buf|
    ensures Turns(k)[i].sent <==> i >= |k.snd.buf| || Goes(k, k.snd.buf[i])
    ensures Turns(k)[i].timeout <==> i < |k.snd.buf| && TimedOut(k, k.snd.buf[i])
    ensures Turns(k)[i].fast <==> i < |k.snd.buf| && SkippedEnough(k, k.snd.buf[i])
  {
    MovedAt(k, i);
    AttemptKind(k, Moved(k).buf[i]);
  }

  // The link is dead once a segment that goes out has been sent as often as the limit, and stays so.
  lemma FlushDead(k: Kcb)
    requires Inv(k) && k.clock.updated
    ensures var t := Flush(k).0;
            t.state == if exists i :: 0 <= i < |t.snd.buf| && t.snd.buf[i].xmit >= k.cfg.deadLink
                                      && (i >= |k.snd.buf| || Goes(k, k.snd.buf[i]))
                       then 0xffff_ffff else k.state
  {
    var ts := Turns(k);
    FlushSnd(k);
    Retransmit.DeadIs(ts, k.cfg.deadLink);
    forall i | 0 <= i < |ts| ensures ts[i].sent <==> i >= |k.snd.buf| || Goes(k, k.snd.buf[i]) { KindAt(k, i); }
    DeadOf(k, ts, Flush(k).0.snd.buf);
  }

  lemma DeadOf(k: Kcb, ts: seq<Retransmit.Turn>, buf: seq<Segment>)
    requires buf == Retransmit.Segs(ts)
    requires forall i :: 0 <= i < |ts| ==> (ts[i].sent <==> i >= |k.snd.buf| || Goes(k, k.snd.buf[i]))
    ensures (exists i :: 0 <= i < |ts| && ts[i].sent && ts[i].seg.xmit >= k.cfg.deadLink) <==>
            exists i :: 0 <= i < |buf| && buf[i].xmit >= k.cfg.deadLink && (i >= |k.snd.buf| || Goes(k, k.snd.buf[i]))
  {
    if i :| 0 <= i < |ts| && ts[i].sent && ts[i].seg.xmit >= k.cfg.deadLink { assert buf[i].xmit >= k.cfg.deadLink; }
    if i :| 0 <= i < |buf| && buf[i].xmit >= k.cfg.deadLink && (i >= |k.snd.buf| || Goes(k, k.snd.buf[i])) {
      assert ts[i].sent;
    }
  }

  lemma AnyOf(k: Kcb)
    requires Inv(k)
    ensures Retransmit.AnyTimeout(Turns(k)) <==> exists x :: x in k.snd.buf && TimedOut(k, x)
    ensures Retransmit.AnyFast(Turns(k)) <==> exists x :: x in k.snd.buf && SkippedEnough(k, x)
  {
    var ts, buf := Turns(k), k.snd.buf;
    Retransmit.TimeoutIs(ts);
    Retransmit.FastIs(ts);
    MovedSpan(k);
    forall i | 0 <= i < |ts|
      ensures ts[i].timeout <==> i < |buf| && TimedOut(k, buf[i])
      ensures ts[i].fast <==> i < |buf| && SkippedEnough(k, buf[i])
    {
      KindAt(k, i);
    }
    AnyAt(k, ts);
  }

  lemma AnyAt(k: Kcb, ts: seq<Retransmit.Turn>)
    requires |ts| >= |k.snd.buf|
    requires forall i :: 0 <= i < |ts| ==> (ts[i].timeout <==> i < |k.snd.buf| && TimedOut(k, k.snd.buf[i]))
    requires forall i :: 0 <= i < |ts| ==> (ts[i].fast <==> i < |k.snd.buf| && SkippedEnough(k, k.snd.buf[i]))
    ensures (exists i :: 0 <= i < |ts| && ts[i].timeout) <==> exists x :: x in k.snd.buf && TimedOut(k, x)
    ensures (exists i :: 0 <= i < |ts| && ts[i].fast) <==> exists x :: x in k.snd.buf && SkippedEnough(k, x)
  {
    var buf := k.snd.buf;
    if i :| 0 <= i < |ts| && ts[i].timeout { assert buf[i] in buf; }
    if i :| 0 <= i < |ts| && ts[i].fast { assert buf[i] in buf; }
    if x :| x in buf && TimedOut(k, x) {
      var i :| 0 <= i < |buf| && buf[i] == x;
      assert ts[i].timeout;
    }
    if x :| x in buf && SkippedEnough(k, x) {
      var i :| 0 <= i < |buf| && buf[i] == x;
      assert ts[i].fast;
    }
  }

  lemma CongIs(k: Kcb)
    requires k.clock.updated
    ensures var t, ts := Flush(k).0, Turns(k);
            t.cong == Congestion.Settle(k.cong, k.cfg.Mss(), S.Span(t.snd), Resent(k), FlushWindow(k),
                                        Retransmit.AnyFast(ts), Retransmit.AnyTimeout(ts))
  {
  }

  // The congestion window after a flush that has |allowed| in flight at most and resends after |skips|
  // skips: it depends on whether a segment in flight has timed out or was skipped enough.
  lemma FlushCong(k: Kcb)
    requires Inv(k) && k.clock.updated
    ensures var t := Flush(k).0;
            var allowed := if k.cfg.nocwnd then Min(k.cfg.sndWnd, k.prober.rmt)
                           else Min(k.cong.cwnd, Min(k.cfg.sndWnd, k.prober.rmt));
            var skips := if k.cfg.fastresend > 0 then k.cfg.fastresend else 0xffff_ffff;
            Congestion.Settled(k.cong, t.cong, k.cfg.mtu - 24, Dist(t.snd.una, t.snd.nxt), skips, allowed,
                               exists x :: x in k.snd.buf && SkippedEnough(k, x),
                               exists x :: x in k.snd.buf && TimedOut(k, x))
  {
    AnyOf(k);
    CongIs(k);
    var ts := Turns(k);
    Congestion.SettleIs(k.cong, k.cfg.Mss(), S.Span(Flush(k).0.snd), Resent(k), FlushWindow(k),
                        Retransmit.AnyFast(ts), Retransmit.AnyTimeout(ts));
  }

  // What a flush that runs settles: no acknowledgement is pending and no window segment owed any more.
  // The rest of the receive window, the estimator, the clock and the settings are as they were.
  lemma FlushSettles(k: Kcb)
    requires k.clock.updated
    ensures var t := Flush(k).0;
            && t.rcv == k.rcv.(acks := []) && !t.prober.ask && !t.prober.tell
            && t.prober.rmt == k.prober.rmt && t.rtt == k.rtt && t.clock == k.clock && t.cfg == k.cfg
  {
  }

  // Before the first update a flush does nothing.
  lemma FlushWaits(k: Kcb)
    requires !k.clock.updated
    ensures Flush(k) == (k, [])
  {
  }

  // No datagram of a flush could have taken the first segment of the next one.
  lemma FlushTight(k: Kcb, i: nat)
    requires Inv(k) && k.clock.updated && 0 < i < |Flush(k).1|
    ensures var ds := Flush(k).1;
            var next := Parse(k.cfg.conv, ds[i]).segs;
            next != [] && |ds[i - 1]| + 24 + |next[0].data| > k.cfg.mtu
  {
    var ws := FlushWires(k);
    FlushWiresOk(k);
    forall j | 0 <= j < |ws| ensures Sendable(k.cfg.conv, ws[j]) { assert ws[j] in ws; }
    TightDatagrams(k.cfg.conv, k.cfg.mtu, ws, i);
  }

  lemma TightDatagrams(conv: u32, mtu: u32, ws: seq<Wire>, i: nat)
    requires forall j :: 0 <= j < |ws| ==> Sendable(conv, ws[j])
    requires 0 < i < |Pack(mtu, [], ws)|
    ensures var ds := Datagrams(Pack(mtu, [], ws));
            var next := Parse(conv, ds[i]).segs;
            next != [] && |ds[i - 1]| + 24 + |next[0].data| > mtu
  {
    var cs := Pack(mtu, [], ws);
    PackTight(mtu, [], ws);
    PackConserves(mtu, [], ws);
    forall c, w | c in cs && w in c ensures Sendable(conv, w) {
      FlattenMembers(cs, c, w);
      assert w in ws;
    }
    ParseAllDatagrams(conv, cs);
  }

  // ---- reading, and when the next call is needed ----

  // A read touches nothing but the receive window and the answer owed when it reopens: a queue that
  // was full has room again.
  lemma RecvElse(k: Kcb, len: int)
    ensures var (t, code, bytes) := Recv(k, len);
            var reopened := code >= 0 && |t.rcv.queue| < k.cfg.rcvWnd <= |k.rcv.queue|;
            && t == k.(rcv := t.rcv, prober := k.prober.(tell := k.prober.tell || reopened))
            && (t.rcv, code, bytes) == (var x := R.Recv(k.rcv, k.cfg.rcvWnd, len); (x.rcv, x.code, x.bytes))
  {
  }

  lemma UpdateQuiet(k: Kcb, now: u32, clock: Schedule.Clock)
    requires Schedule.Update(k.clock, k.cfg.interval, now) == Schedule.Tock(clock, false)
    ensures Update(k, now) == (k.(clock := clock), [])
  {
  }

  lemma UpdateRuns(k: Kcb, now: u32, clock: Schedule.Clock)
    requires Schedule.Update(k.clock, k.cfg.interval, now) == Schedule.Tock(clock, true)
    ensures Update(k, now) == Flush(k.(clock := clock))
  {
  }

  // What the next flush is counted from, |late| after this one was due.
  function GridFrom(k: Kcb, now: u32, late: int): u32 {
    if k.clock.updated && 0 <= late < k.cfg.interval then k.clock.flushAt else now
  }

  // An update sets the clock; it flushes unless the next flush is still ahead by less than 10 seconds.
  // The next flush is due an interval after this one was, when that is still ahead, and otherwise
  // an interval from now.
  lemma UpdateFlushes(k: Kcb, now: u32, late: int, next: u32)
    requires k.cfg.interval < 10000 && late == Diff(now, k.clock.flushAt)
    requires next == Wrap(GridFrom(k, now, late) + k.cfg.interval)
    ensures Update(k, now) ==
              if k.clock.updated && -10000 <= late < 0
              then (k.(clock := Schedule.Clock(now, k.clock.flushAt, true)), [])
              else Flush(k.(clock := Schedule.Clock(now, next, true)))
  {
    Schedule.UpdateExact(k.clock, k.cfg.interval, now);
    if k.clock.updated && -10000 <= late < 0 {
      UpdateQuiet(k, now, Schedule.Clock(now, k.clock.flushAt, true));
    } else {
      UpdateRuns(k, now, Schedule.Clock(now, next, true));
    }
  }

  // The time the oracle answers: now, when the clock has not started or is 10 seconds or more off,
  // a flush is due, or a segment in flight is; otherwise as far ahead as the nearest of the next
  // flush, the first deadline of a segment in flight, and an interval.
  lemma CheckIs(k: Kcb, now: u32)
    ensures var buf, flush, answer := k.snd.buf, Diff(k.clock.flushAt, now), Check(k, now);
            var wait := Dist(now, answer);
            if !k.clock.updated || Diff(now, k.clock.flushAt) >= 0 || Diff(now, k.clock.flushAt) < -10000
               || exists i :: 0 <= i < |buf| && Diff(buf[i].resendts, now) <= 0
            then answer == now
            else
              && wait <= k.cfg.interval && wait <= flush
              && (forall i :: 0 <= i < |buf| ==> wait <= Diff(buf[i].resendts, now))
              && (|| wait == k.cfg.interval || wait == flush
                  || exists i :: 0 <= i < |buf| && wait == Diff(buf[i].resendts, now))
  {
    var buf, ds := k.snd.buf, Deadlines(k.snd.buf);
    if !k.clock.updated || Diff(now, k.clock.flushAt) >= 0 || Diff(now, k.clock.flushAt) < -10000 {
      Schedule.CheckDue(k.clock, k.cfg.interval, ds, now);
    } else if i :| 0 <= i < |buf| && Diff(buf[i].resendts, now) <= 0 {
      assert Diff(ds[i], now) <= 0;
      Schedule.CheckDue(k.clock, k.cfg.interval, ds, now);
    } else {
      Schedule.CheckExact(k.clock, k.cfg.interval, ds, now);
      var wait := Dist(now, Check(k, now));
      if i :| 0 <= i < |ds| && wait == Diff(ds[i], now) { assert wait == Diff(buf[i].resendts, now); }
      forall i | 0 <= i < |buf| ensures wait <= Diff(buf[i].resendts, now) { assert wait <= Diff(ds[i], now); }
    }
  }
}
