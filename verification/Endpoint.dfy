/** One endpoint over every run: whatever the application calls and whatever bytes arrive, the
    windows, the congestion counters, the timers and the segment sizes stay within bounds, and
    the receiver's parser reads back everything a flush writes. */
module Endpoint {
  import opened Words
  import opened Segments
  import opened Codec
  import opened Congestion
  import opened Probe
  import opened Engine
  import opened Packing
  import opened Retransmit
  import opened Wrappers
  import Fragments
  import Schedule
  import Rtt
  import S = SendWindow
  import R = RecvWindow

  // What the setters leave of any arguments; the least timeout is one of two constants.
  ghost predicate ConfigOk(c: Config) {
    && 50 <= c.mtu < 0x8000_0000
    && 128 <= c.rcvWnd < 0x8000_0000
    && 10 <= c.interval <= 5000
    && 1 <= c.minrto <= 60000
  }

  // What the congestion arithmetic needs besides.
  ghost predicate CongestionOk(c: Config) {
    ConfigOk(c) && c.mtu <= 65535 && c.fastresend <= 32767
  }

  ghost predicate Queued(q: seq<Segment>, mss: u32) {
    forall s :: s in q ==> |s.data| <= mss
  }

  ghost predicate Flying(buf: seq<Segment>, conv: u32, mss: u32) {
    forall s :: s in buf ==> |s.data| <= mss && s.conv == conv && s.cmd == CMD_PUSH
  }

  // Windows, timers and sizes.
  ghost predicate Inv(k: Kcb) {
    && ConfigOk(k.cfg)
    && S.SndInv(k.snd)
    && R.RcvInv(k.rcv, k.cfg.rcvWnd)
    && ProbeInv(k.prober)
    && 1 <= k.rtt.rto <= 60000
    && Queued(k.snd.queue, k.cfg.Mss())
    && Flying(k.snd.buf, k.cfg.conv, k.cfg.Mss())
  }

  // Congestion counters; `skips` bounds the number of datagrams taken in so far.
  ghost predicate Skipped(buf: seq<Segment>, skips: nat) {
    forall s :: s in buf ==> s.fastack <= skips
  }

  ghost predicate Counters(k: Kcb, skips: nat) {
    && CongestionOk(k.cfg)
    && CongInv(k.cong, k.cfg.Mss())
    && Skipped(k.snd.buf, skips)
  }

  lemma CreateInv(cfg: Config)
    requires ConfigOk(cfg)
    ensures Inv(Create(cfg))
    ensures CongestionOk(cfg) ==> Counters(Create(cfg), 0)
  {
    if CongestionOk(cfg) { StartInv(cfg.Mss()); }
  }

  // ---- send and recv ----

  lemma SendKeeps(k: Kcb, m: Bytes)
    requires Inv(k)
    ensures Inv(Send(k, m).0)
  {
    var q, mss := k.snd.queue, k.cfg.Mss();
    var r := Fragments.Send(q, mss, k.cfg.stream, m).queue;
    if k.cfg.stream { Fragments.SendStream(q, mss, m); } else { Fragments.SendMessage(q, mss, m); }
    forall s | s in r ensures |s.data| <= mss {
      var i :| 0 <= i < |r| && r[i] == s;
      if i < |q| && r[i] == q[i] { assert s in q; }
      if !k.cfg.stream && i < |q| && r != q { assert r[..|q|][i] == q[i]; }
    }
  }

  lemma RecvKeeps(k: Kcb, len: int)
    requires Inv(k)
    ensures Inv(Recv(k, len).0)
  {
    R.RecvKeeps(k.rcv, k.cfg.rcvWnd, len);
  }

  // ---- input ----

  lemma RemovalOnly(s: S.Snd, w: Wire)
    ensures forall x :: x in S.OnWire(s, w).buf ==> x in s.buf
  {
    S.DropCountIs(s.buf, w.una);
    S.ScanAckOnlyRemoves(S.TakeUna(s, w.una).buf, w.sn);
  }

  lemma OnWireKeeps(k: Kcb, w: Wire)
    requires Inv(k)
    ensures Inv(OnWire(k, w))
  {
    S.OnWireKeeps(k.snd, w);
    R.OnWireKeeps(k.rcv, k.cfg.rcvWnd, w);
    RemovalOnly(k.snd, w);
    Rtt.RtoClamped(k.rtt, k.cfg.minrto, k.cfg.interval, Diff(k.clock.current, w.ts));
  }

  lemma {:induction false} OnWiresKeeps(k: Kcb, ws: seq<Wire>)
    requires Inv(k)
    ensures Inv(OnWires(k, ws))
    ensures forall x :: x in OnWires(k, ws).snd.buf ==> x in k.snd.buf
    decreases |ws|
  {
    if ws != [] {
      OnWireKeeps(k, ws[0]);
      RemovalOnly(k.snd, ws[0]);
      OnWiresKeeps(OnWire(k, ws[0]), ws[1..]);
    }
  }

  lemma SkipKeeps(buf: seq<Segment>, sn: u32, conv: u32, mss: u32, skips: nat)
    requires Flying(buf, conv, mss)
    ensures Flying(S.ScanSkip(buf, sn), conv, mss)
    ensures Skipped(buf, skips) ==> Skipped(S.ScanSkip(buf, sn), skips + 1)
  {
    var r := S.ScanSkip(buf, sn);
    forall i | 0 <= i < |r| ensures |r[i].data| <= mss && r[i].conv == conv && r[i].cmd == CMD_PUSH {
      assert buf[i] in buf;
    }
    if Skipped(buf, skips) {
      forall i | 0 <= i < |r| ensures r[i].fastack <= skips + 1 { assert buf[i] in buf; }
    }
  }

  lemma FinishKeeps(k: Kcb, prevUna: u32, maxack: Option<u32>, skips: nat)
    requires Inv(k)
    ensures Inv(Finish(k, prevUna, maxack))
    ensures Counters(k, skips) ==> Counters(Finish(k, prevUna, maxack), skips + 1)
  {
    if maxack.Some? {
      S.TakeFastAckKeeps(k.snd, maxack.value);
      SkipKeeps(k.snd.buf, maxack.value, k.cfg.conv, k.cfg.Mss(), skips);
    }
    if Counters(k, skips) { GrowKeeps(k.cong, k.cfg.Mss(), k.prober.rmt); }
  }

  // Any bytes whatever.
  lemma InputKeeps(k: Kcb, data: Bytes, skips: nat)
    requires Inv(k)
    ensures Inv(Input(k, data).0)
    ensures Counters(k, skips) ==> Counters(Input(k, data).0, skips + 1)
  {
    if |data| >= 24 {
      var scan := Parse(k.cfg.conv, data);
      OnWiresKeeps(k, scan.segs);
      OnWiresCfg(k, scan.segs);
      if scan.code == 0 { FinishKeeps(OnWires(k, scan.segs), k.snd.una, MaxAck(None, scan.segs), skips); }
    }
  }

  // Among acknowledgements in the half circle ahead of |base|, `ikcp_input` keeps the greatest.
  lemma {:induction false} MaxAckIsGreatest(base: u32, m: Option<u32>, ws: seq<Wire>)
    requires m.Some? ==> Dist(base, m.value) < 0x8000_0000
    requires forall w :: w in ws && w.cmd == CMD_ACK ==> Dist(base, w.sn) < 0x8000_0000
    ensures var top := MaxAck(m, ws);
            && (top == None <==> m == None && forall w :: w in ws ==> w.cmd != CMD_ACK)
            && (top.Some? ==>
                  && (m.Some? ==> Dist(base, m.value) <= Dist(base, top.value))
                  && (forall w :: w in ws && w.cmd == CMD_ACK ==> Dist(base, w.sn) <= Dist(base, top.value))
                  && (top == m || exists w :: w in ws && w.cmd == CMD_ACK && w.sn == top.value))
    decreases |ws|
  {
    if ws != [] {
      var next := Newer(m, ws[0]);
      assert ws == [ws[0]] + ws[1..] && ws[0] in ws;
      if m.Some? && ws[0].cmd == CMD_ACK { R.OrderExact(base, ws[0].sn, m.value); }
      MaxAckIsGreatest(base, next, ws[1..]);
    }
  }

  // A datagram taken in whole counts one skip on exactly the segments it leaves in flight below
  // its acknowledged serial number, when that one lies in the window, and on none otherwise.
  lemma InputSkips(k: Kcb, data: Bytes)
    requires Inv(k) && |data| >= 24 && Input(k, data).1 == 0
    ensures var ws := Parse(k.cfg.conv, data).segs;
            var left, top := OnWires(k, ws).snd, MaxAck(None, ws);
            var buf := Input(k, data).0.snd.buf;
            && |buf| == |left.buf|
            && (forall i :: 0 <= i < |buf| ==>
                  && left.buf[i] in k.snd.buf
                  && buf[i] == if top.Some? && S.InRange(left.una, left.nxt, top.value)
                                  && Dist(left.buf[i].sn, left.nxt) > Dist(top.value, left.nxt)
                               then S.Bumped(left.buf[i]) else left.buf[i])
  {
    var ws := Parse(k.cfg.conv, data).segs;
    var left, top := OnWires(k, ws).snd, MaxAck(None, ws);
    OnWiresKeeps(k, ws);
    OnWiresCfg(k, ws);
    if top.Some? { S.TakeFastAckIs(left, top.value); }
  }

  // An ACK of the datagram, taken as a position of the send window.
  ghost predicate Acks(ws: seq<Wire>, sn: u32) {
    exists w :: w in ws && w.cmd == CMD_ACK && w.sn == sn
  }

  // The greatest serial number the datagram acknowledges, on the half circle ahead of |base|.
  ghost predicate GreatestAck(ws: seq<Wire>, base: u32, sn: u32) {
    Acks(ws, sn) && forall other :: Acks(ws, other) ==> Dist(base, other) <= Dist(base, sn)
  }

  // The same in terms of the datagram alone, when its acknowledgements lie on one half circle: the
  // skips are counted below its greatest acknowledgement.
  lemma InputSkipsBelowGreatest(k: Kcb, data: Bytes, base: u32, sn: u32)
    requires Inv(k) && |data| >= 24 && Input(k, data).1 == 0
    requires forall other :: Acks(Parse(k.cfg.conv, data).segs, other) ==> Dist(base, other) < 0x8000_0000
    requires GreatestAck(Parse(k.cfg.conv, data).segs, base, sn)
    ensures var left, buf := OnWires(k, Parse(k.cfg.conv, data).segs).snd, Input(k, data).0.snd.buf;
            && |buf| == |left.buf|
            && (forall i :: 0 <= i < |buf| ==>
                  && left.buf[i] in k.snd.buf
                  && buf[i] == if S.InRange(left.una, left.nxt, sn)
                                  && Dist(left.buf[i].sn, left.nxt) > Dist(sn, left.nxt)
                               then S.Bumped(left.buf[i]) else left.buf[i])
  {
    var ws := Parse(k.cfg.conv, data).segs;
    InputSkips(k, data);
    forall w | w in ws && w.cmd == CMD_ACK ensures Dist(base, w.sn) < 0x8000_0000 { assert Acks(ws, w.sn); }
    MaxAckIsGreatest(base, None, ws);
    var top := MaxAck(None, ws).value;
    assert Acks(ws, top);
    var w :| w in ws && w.cmd == CMD_ACK && w.sn == sn;
    SameDist(base, sn, top);
  }

  lemma SameDist(base: u32, a: u32, b: u32)
    requires Dist(base, a) == Dist(base, b)
    ensures a == b
  {
  }

  // Without any acknowledgement no skip is counted.
  lemma InputSkipsNothing(k: Kcb, data: Bytes)
    requires Inv(k) && |data| >= 24 && Input(k, data).1 == 0
    requires forall sn :: !Acks(Parse(k.cfg.conv, data).segs, sn)
    ensures Input(k, data).0.snd.buf == OnWires(k, Parse(k.cfg.conv, data).segs).snd.buf
  {
    var ws := Parse(k.cfg.conv, data).segs;
    InputSkips(k, data);
    forall w | w in ws ensures w.cmd != CMD_ACK { assert !Acks(ws, w.sn); }
    MaxAckIsGreatest(k.snd.una, None, ws);
  }

  // Any datagram raises the congestion window by at most 2.
  lemma InputGrowth(k: Kcb, data: Bytes, skips: nat)
    requires Counters(k, skips)
    ensures k.cong.cwnd <= Input(k, data).0.cong.cwnd <= k.cong.cwnd + 2
  {
    if |data| >= 24 {
      var scan := Parse(k.cfg.conv, data);
      OnWiresCfg(k, scan.segs);
      GrowKeeps(k.cong, k.cfg.Mss(), OnWires(k, scan.segs).prober.rmt);
    }
  }

  // ---- flush and update ----

  lemma FlushWindowSmall(k: Kcb)
    ensures FlushWindow(k) <= 65535
  {
  }

  lemma MovedKeeps(k: Kcb)
    requires Inv(k)
    ensures S.SndInv(Moved(k)) && S.Span(Moved(k)) <= 65535
    ensures Moved(k) == S.Batch(k.snd, FlushWindow(k), FlushStamp(k))
    ensures Queued(Moved(k).queue, k.cfg.Mss())
    ensures Flying(Moved(k).buf, k.cfg.conv, k.cfg.Mss())
    ensures forall skips: nat :: Skipped(k.snd.buf, skips) ==> Skipped(Moved(k).buf, skips)
  {
    FlushWindowSmall(k);
    S.MoveKeeps(k.snd, FlushWindow(k), FlushStamp(k));
    var n := S.Room(k.snd, FlushWindow(k));
    var add := S.Admitted(k.snd.queue[..n], FlushStamp(k), k.snd.nxt);
    forall i | 0 <= i < |add|
      ensures |add[i].data| <= k.cfg.Mss() && add[i].conv == k.cfg.conv && add[i].cmd == CMD_PUSH && add[i].fastack == 0
    {
      assert k.snd.queue[..n][i] in k.snd.queue;
    }
  }

  lemma SameSerials(s: S.Snd, buf: seq<Segment>)
    requires S.SndInv(s) && |buf| == |s.buf| && forall i :: 0 <= i < |buf| ==> buf[i].sn == s.buf[i].sn
    ensures S.SndInv(s.(buf := buf))
  {
  }

  lemma TurnsKeep(buf: seq<Segment>, p: Policy, conv: u32, mss: u32, skips: nat)
    requires Flying(buf, conv, mss)
    ensures Flying(Segs(Attempts(buf, p)), conv, mss)
    ensures Skipped(buf, skips) ==> Skipped(Segs(Attempts(buf, p)), skips)
  {
    var r := Segs(Attempts(buf, p));
    forall i | 0 <= i < |r| ensures |r[i].data| <= mss && r[i].conv == conv && r[i].cmd == CMD_PUSH {
      assert buf[i] in buf;
      AttemptKeeps(buf[i], p);
    }
    if Skipped(buf, skips) {
      forall i | 0 <= i < |r| ensures r[i].fastack <= skips { assert buf[i] in buf; }
    }
  }

  lemma TurnsSerials(buf: seq<Segment>, p: Policy)
    ensures forall i :: 0 <= i < |buf| ==> Segs(Attempts(buf, p))[i].sn == buf[i].sn
  {
    forall i | 0 <= i < |buf| ensures Segs(Attempts(buf, p))[i].sn == buf[i].sn { AttemptKeeps(buf[i], p); }
  }

  lemma AfterFlushKeeps(k: Kcb)
    requires Inv(k)
    ensures Inv(AfterFlush(k))
  {
    MovedKeeps(k);
    TurnsKeep(Moved(k).buf, FlushPolicy(k), k.cfg.conv, k.cfg.Mss(), 0);
    TurnsSerials(Moved(k).buf, FlushPolicy(k));
    SameSerials(Moved(k), Segs(Turns(k)));
    TickKeeps(k.prober, k.clock.current);
  }

  lemma FlushKeeps(k: Kcb)
    requires Inv(k)
    ensures Inv(Flush(k).0)
  {
    if k.clock.updated { AfterFlushKeeps(k); }
  }

  lemma FastNeedsSkips(buf: seq<Segment>, p: Policy, skips: nat, i: nat)
    requires Skipped(buf, skips) && i < |buf| && Attempt(buf[i], p).fast
    ensures p.resent <= skips
  {
    assert buf[i] in buf;
  }

  lemma FastMeansLimit(k: Kcb, skips: nat)
    requires Inv(k) && Counters(k, skips) && skips < 0xffff_ffff
    ensures AnyFast(Turns(k)) ==> Resent(k) <= 32767
  {
    MovedKeeps(k);
    FastIs(Turns(k));
    if i :| 0 <= i < |Turns(k)| && Turns(k)[i].fast {
      FastNeedsSkips(Moved(k).buf, FlushPolicy(k), skips, i);
    }
  }

  // The congestion counters stay consistent, and a flush that runs leaves a window of at least one.
  lemma FlushCounters(k: Kcb, skips: nat)
    requires Inv(k) && Counters(k, skips) && skips < 0xffff_ffff
    ensures Counters(Flush(k).0, skips)
    ensures k.clock.updated ==> Flush(k).0.cong.cwnd >= 1
  {
    if k.clock.updated {
      var ts := Turns(k);
      MovedKeeps(k);
      TurnsKeep(Moved(k).buf, FlushPolicy(k), k.cfg.conv, k.cfg.Mss(), skips);
      FastMeansLimit(k, skips);
      FlushWindowSmall(k);
      SettleKeeps(k.cong, k.cfg.Mss(), S.Span(Moved(k)), Resent(k), FlushWindow(k), AnyFast(ts), AnyTimeout(ts));
    }
  }

  // ---- what a flush writes ----

  lemma {:induction false} SentWiresOk(ts: seq<Turn>, conv: u32, mss: u32)
    requires Flying(Segs(ts), conv, mss) && mss < 0x8000_0000
    ensures forall w :: w in SentWires(ts) ==> Sendable(conv, w) && w.cmd == CMD_PUSH && |w.data| <= mss
  {
    if ts != [] {
      assert Segs(ts)[0] in Segs(ts);
      assert Segs(ts[1..]) == Segs(ts)[1..];
      SentWiresOk(ts[1..], conv, mss);
    }
  }

  lemma ControlWiresOk(k: Kcb)
    ensures forall w :: w in AckWires(k) ==> Sendable(k.cfg.conv, w) && w.data == []
    ensures forall w :: w in ProbeWires(k, Tick(k.prober, k.clock.current)) ==> Sendable(k.cfg.conv, w) && w.data == []
  {
  }

  lemma FlushWiresOk(k: Kcb)
    requires Inv(k)
    ensures forall w :: w in FlushWires(k) ==> Sendable(k.cfg.conv, w) && 24 + |w.data| <= k.cfg.mtu
  {
    MovedKeeps(k);
    TurnsKeep(Moved(k).buf, FlushPolicy(k), k.cfg.conv, k.cfg.Mss(), 0);
    SentWiresOk(Turns(k), k.cfg.conv, k.cfg.Mss());
    ControlWiresOk(k);
  }

  // Every datagram is non-empty, at most `mtu` bytes and a whole number of segments, and parsing
  // them in order gives back exactly the segments the flush set out to write.
  lemma FlushRoundTrip(k: Kcb)
    requires Inv(k) && k.clock.updated
    ensures var ds := Flush(k).1;
            && ParseAll(k.cfg.conv, ds) == FlushWires(k)
            && (forall d :: d in ds ==> 0 < |d| <= k.cfg.mtu && Parse(k.cfg.conv, d).code == 0)
  {
    var ws := FlushWires(k);
    FlushWiresOk(k);
    assert forall i :: 0 <= i < |ws| ==> ws[i] in ws;
    PackRoundTrip(k.cfg.conv, k.cfg.mtu, ws);
  }

  // ---- every run ----

  datatype Event = SendEv(m: Bytes) | RecvEv(len: int) | InputEv(data: Bytes) | UpdateEv(now: u32) | FlushEv

  function Step(k: Kcb, e: Event): (t: Kcb)
    requires 24 < k.cfg.mtu
    ensures t.cfg == k.cfg
  {
    match e
    case SendEv(m) => Send(k, m).0
    case RecvEv(len) => Recv(k, len).0
    case InputEv(data) => OnWiresCfg(k, Parse(k.cfg.conv, data).segs); Input(k, data).0
    case UpdateEv(now) => Update(k, now).0
    case FlushEv => Flush(k).0
  }

  function Run(k: Kcb, es: seq<Event>): (t: Kcb)
    requires 24 < k.cfg.mtu
    ensures t.cfg == k.cfg
  {
    if es == [] then k else Step(Run(k, es[..|es| - 1]), es[|es| - 1])
  }

  // The datagrams a call puts out, and those of a run.
  function PutOut(k: Kcb, e: Event): seq<Bytes>
    requires 24 < k.cfg.mtu
  {
    match e
    case UpdateEv(now) => Update(k, now).1
    case FlushEv => Flush(k).1
    case _ => []
  }

  function RunOutput(k: Kcb, es: seq<Event>): seq<Bytes>
    requires 24 < k.cfg.mtu
  {
    if es == [] then []
    else RunOutput(k, es[..|es| - 1]) + PutOut(Run(k, es[..|es| - 1]), es[|es| - 1])
  }

  lemma StepKeeps(k: Kcb, e: Event)
    requires Inv(k)
    ensures Inv(Step(k, e))
  {
    match e
    case SendEv(m) => SendKeeps(k, m);
    case RecvEv(len) => RecvKeeps(k, len);
    case InputEv(data) => InputKeeps(k, data, 0);
    case UpdateEv(now) => FlushKeeps(k.(clock := Schedule.Update(k.clock, k.cfg.interval, now).clock));
    case FlushEv => FlushKeeps(k);
  }

  lemma StepCounters(k: Kcb, e: Event, skips: nat)
    requires Inv(k) && Counters(k, skips) && skips < 0xffff_ffff
    ensures Counters(Step(k, e), skips + 1)
  {
    match e
    case SendEv(m) =>
    case RecvEv(len) =>
    case InputEv(data) => InputKeeps(k, data, skips);
    case UpdateEv(now) => FlushCounters(k.(clock := Schedule.Update(k.clock, k.cfg.interval, now).clock), skips);
    case FlushEv => FlushCounters(k, skips);
  }

  // Every state of every run is within bounds, for any bytes received.
  lemma {:induction false} EveryRun(cfg: Config, es: seq<Event>)
    requires ConfigOk(cfg)
    ensures Inv(Run(Create(cfg), es))
  {
    if es == [] {
      CreateInv(cfg);
    } else {
      EveryRun(cfg, es[..|es| - 1]);
      StepKeeps(Run(Create(cfg), es[..|es| - 1]), es[|es| - 1]);
    }
  }

  // No segment has been skipped 2^32 - 1 times in any state of a run.
  ghost predicate FewSkips(k: Kcb, es: seq<Event>)
    requires 24 < k.cfg.mtu
  {
    forall i :: 0 <= i <= |es| ==> Skipped(Run(k, es[..i]).snd.buf, 0xffff_fffe)
  }

  // The congestion counters of every run in which no segment is skipped 2^32 - 1 times.
  lemma {:induction false} EveryRunCong(cfg: Config, es: seq<Event>)
    requires CongestionOk(cfg) && FewSkips(Create(cfg), es)
    ensures CongInv(Run(Create(cfg), es).cong, cfg.Mss())
  {
    if es == [] {
      CreateInv(cfg);
    } else {
      var front := es[..|es| - 1];
      forall i | 0 <= i <= |front| ensures Skipped(Run(Create(cfg), front[..i]).snd.buf, 0xffff_fffe) {
        assert front[..i] == es[..i];
      }
      EveryRun(cfg, front);
      EveryRunCong(cfg, front);
      assert front[..|front|] == front;
      StepCounters(Run(Create(cfg), front), es[|es| - 1], 0xffff_fffe);
    }
  }

  // A run of fewer than 2^32 - 1 calls is one.
  lemma {:induction false} EveryRunCounters(cfg: Config, es: seq<Event>)
    requires CongestionOk(cfg) && |es| < 0xffff_ffff
    ensures Counters(Run(Create(cfg), es), |es|)
  {
    if es == [] {
      CreateInv(cfg);
    } else {
      var front := es[..|es| - 1];
      EveryRun(cfg, front);
      EveryRunCounters(cfg, front);
      StepCounters(Run(Create(cfg), front), es[|es| - 1], |front|);
    }
  }

  lemma Advance(s: S.Snd, t: S.Snd)
    requires S.SndInv(s) && t.nxt == s.nxt && S.Span(t) <= S.Span(s)
    ensures Diff(t.una, s.una) == S.Span(s) - S.Span(t)
  {
    S.HeadSpan(s.nxt, s.buf);
  }

  lemma InputUna(k: Kcb, data: Bytes)
    requires Inv(k)
    ensures var t := Input(k, data).0;
            t.snd.nxt == k.snd.nxt && t.snd.queue == k.snd.queue && Diff(t.snd.una, k.snd.una) >= 0
  {
    if |data| >= 24 {
      var scan := Parse(k.cfg.conv, data);
      OnWiresCfg(k, scan.segs);
      S.OnWiresKeeps(k.snd, scan.segs);
      Advance(k.snd, S.OnWires(k.snd, scan.segs));
    }
    Advance(k.snd, k.snd);
  }

  // No call moves the left edge of the send window backwards, and the window never spans more
  // than 65535 serial numbers.
  lemma UnaNeverBack(k: Kcb, e: Event)
    requires Inv(k)
    ensures Diff(Step(k, e).snd.una, k.snd.una) >= 0
    ensures S.Span(Step(k, e).snd) <= 65535
  {
    StepKeeps(k, e);
    S.HeadSpan(Step(k, e).snd.nxt, Step(k, e).snd.buf);
    Advance(k.snd, k.snd);
    match e
    case InputEv(data) => InputUna(k, data);
    case UpdateEv(now) => MovedKeeps(k.(clock := Schedule.Update(k.clock, k.cfg.interval, now).clock));
    case FlushEv => MovedKeeps(k);
    case _ =>
  }
}
