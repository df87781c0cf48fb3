/** What a flush writes and what it leaves, described without reference to how it goes about it:
    the order and the contents of the segments, the answers it owes, and the questions it asks. */
module FlushFacts {
  import opened Words
  import opened Segments
  import opened Codec
  import opened Engine
  import opened Endpoint
  import opened Retransmit
  import opened Probe
  import Schedule
  import R = RecvWindow

  // ---- the acknowledgements, the window segments, the data ----

  // A segment in flight is due: never sent, timed out, or skipped often enough.
  predicate Due(s: Segment, p: Policy) {
    || s.xmit == 0
    || Diff(p.current, s.resendts) >= 0
    || (s.fastack >= p.resent && (Int32(s.xmit) <= p.fastlimit || p.fastlimit <= 0))
  }

  function DueOf(buf: seq<Segment>, p: Policy): seq<Segment> {
    if buf == [] then [] else (if Due(buf[0], p) then [buf[0]] else []) + DueOf(buf[1..], p)
  }

  // `w` carries segment `s` with the stamps of this flush.
  predicate Carries(w: Wire, s: Segment, p: Policy) {
    && w.conv == s.conv && w.cmd == s.cmd && w.frg == s.frg && w.sn == s.sn && w.data == s.data
    && w.ts == p.current && w.una == p.una && w.wnd == p.wnd % 0x1_0000
  }

  lemma {:induction false} DataWires(buf: seq<Segment>, p: Policy)
    ensures var ws, due := SentWires(Attempts(buf, p)), DueOf(buf, p);
            |ws| == |due| && forall i :: 0 <= i < |ws| ==> Carries(ws[i], due[i], p)
  {
    if buf != [] {
      DataWires(buf[1..], p);
      assert Attempts(buf, p)[1..] == Attempts(buf[1..], p);
      var ws, due := SentWires(Attempts(buf, p)), DueOf(buf, p);
      var ws', due' := SentWires(Attempts(buf[1..], p)), DueOf(buf[1..], p);
      var n := if Due(buf[0], p) then 1 else 0;
      forall i | 0 <= i < |ws| ensures Carries(ws[i], due[i], p) {
        if i >= n { assert ws[i] == ws'[i - n] && due[i] == due'[i - n]; }
      }
    }
  }

  // A segment without payload that tells command, number and timestamp.
  predicate Control(w: Wire, conv: u32, cmd: byte, sn: u32, ts: u32) {
    w.conv == conv && w.cmd == cmd && w.frg == 0 && w.sn == sn && w.ts == ts && w.data == []
  }

  lemma AckLayout(k: Kcb, i: nat)
    requires i < |k.rcv.acks|
    ensures Control(AckWires(k)[i], k.cfg.conv, 82, k.rcv.acks[i].sn, k.rcv.acks[i].ts)
  {
  }

  lemma ProbeLayout(k: Kcb, p: Prober)
    ensures var ps, last := ProbeWires(k, p), LastAck(k.rcv.acks);
            var asks := if p.ask then 1 else 0;
            && |ps| == asks + (if p.tell then 1 else 0)
            && (p.ask ==> Control(ps[0], k.cfg.conv, 83, last.sn, last.ts))
            && (p.tell ==> Control(ps[|ps| - 1], k.cfg.conv, 84, last.sn, last.ts))
  {
  }

  // The segments of a flush, in this order: every pending acknowledgement in arrival order with the
  // timestamp it came with; a window question and a window answer if they are due, which repeat
  // number and timestamp of the last acknowledgement; and every segment that is due.
  ghost predicate Layout(ws: seq<Wire>, conv: u32, acks: seq<R.Ack>, ask: bool, tell: bool, due: seq<Segment>,
                         p: Policy) {
    var asks, tells := if ask then 1 else 0, if tell then 1 else 0;
    var sn, ts := if acks == [] then 0 else acks[|acks| - 1].sn, if acks == [] then 0 else acks[|acks| - 1].ts;
    && |ws| == |acks| + asks + tells + |due|
    && (forall i :: 0 <= i < |acks| ==> Control(ws[i], conv, 82, acks[i].sn, acks[i].ts))
    && (ask ==> Control(ws[|acks|], conv, 83, sn, ts))
    && (tell ==> Control(ws[|acks| + asks], conv, 84, sn, ts))
    && (forall i :: 0 <= i < |due| ==> Carries(ws[|acks| + asks + tells + i], due[i], p))
  }

  lemma LayoutOf(a: seq<Wire>, b: seq<Wire>, c: seq<Wire>, conv: u32, acks: seq<R.Ack>, ask: bool, tell: bool,
                 due: seq<Segment>, p: Policy)
    requires |a| == |acks| && forall i :: 0 <= i < |a| ==> Control(a[i], conv, 82, acks[i].sn, acks[i].ts)
    requires |b| == (if ask then 1 else 0) + if tell then 1 else 0
    requires ask ==> Control(b[0], conv, 83, LastAck(acks).sn, LastAck(acks).ts)
    requires tell ==> Control(b[|b| - 1], conv, 84, LastAck(acks).sn, LastAck(acks).ts)
    requires |c| == |due| && forall i :: 0 <= i < |c| ==> Carries(c[i], due[i], p)
    ensures Layout(a + b + c, conv, acks, ask, tell, due, p)
  {
    var ws := a + b + c;
    assert forall i :: 0 <= i < |a| ==> ws[i] == a[i];
    assert forall i :: 0 <= i < |b| ==> ws[|a| + i] == b[i];
    assert forall i :: 0 <= i < |c| ==> ws[|a| + |b| + i] == c[i];
  }

  // A flush writes exactly this, and what is due goes in the order of the send buffer.
  lemma FlushLayout(k: Kcb)
    requires Inv(k)
    ensures Layout(FlushWires(k), k.cfg.conv, k.rcv.acks, Tick(k.prober, k.clock.current).ask, k.prober.tell,
                   DueOf(Moved(k).buf, FlushPolicy(k)), FlushPolicy(k))
  {
    var p, acks := Tick(k.prober, k.clock.current), k.rcv.acks;
    DataWires(Moved(k).buf, FlushPolicy(k));
    TickKeeps(k.prober, k.clock.current);
    ProbeLayout(k, p);
    forall i | 0 <= i < |acks| ensures Control(AckWires(k)[i], k.cfg.conv, 82, acks[i].sn, acks[i].ts) {
      AckLayout(k, i);
    }
    LayoutOf(AckWires(k), ProbeWires(k, p), SentWires(Turns(k)), k.cfg.conv, acks, p.ask, p.tell,
             DueOf(Moved(k).buf, FlushPolicy(k)), FlushPolicy(k));
  }

  // Every segment a flush writes tells the receive window exactly, when that fits 16 bits, and the
  // next serial number expected.
  lemma FlushTellsWindow(k: Kcb)
    requires Inv(k) && k.cfg.rcvWnd <= 65535
    ensures forall w :: w in FlushWires(k) ==> w.wnd == k.cfg.rcvWnd - |k.rcv.queue| && w.una == k.rcv.nxt
  {
    var acks, probes, ws := AckWires(k), ProbeWires(k, Tick(k.prober, k.clock.current)), SentWires(Turns(k));
    DataTellsWindow(k);
    ControlTellsWindow(k);
    forall w | w in FlushWires(k) ensures w in acks || w in probes || w in ws { assert w in acks + probes + ws; }
  }

  lemma ControlTellsWindow(k: Kcb)
    requires Inv(k) && k.cfg.rcvWnd <= 65535
    ensures forall w :: w in AckWires(k) ==> w.wnd == k.cfg.rcvWnd - |k.rcv.queue| && w.una == k.rcv.nxt
    ensures forall w :: w in ProbeWires(k, Tick(k.prober, k.clock.current)) ==>
              w.wnd == k.cfg.rcvWnd - |k.rcv.queue| && w.una == k.rcv.nxt
  {
    assert WindowField(k) == k.cfg.rcvWnd - |k.rcv.queue|;
    forall w | w in AckWires(k) ensures w.wnd == WindowField(k) && w.una == k.rcv.nxt {
      var i :| 0 <= i < |AckWires(k)| && AckWires(k)[i] == w;
    }
  }

  lemma DataTellsWindow(k: Kcb)
    requires Inv(k) && k.cfg.rcvWnd <= 65535
    ensures forall w :: w in SentWires(Turns(k)) ==> w.wnd == k.cfg.rcvWnd - |k.rcv.queue| && w.una == k.rcv.nxt
  {
    var p, ws, due := FlushPolicy(k), SentWires(Turns(k)), DueOf(Moved(k).buf, FlushPolicy(k));
    DataWires(Moved(k).buf, p);
    forall w | w in ws ensures w.wnd == k.cfg.rcvWnd - |k.rcv.queue| && w.una == k.rcv.nxt {
      var i :| 0 <= i < |ws| && ws[i] == w;
      assert Carries(ws[i], due[i], p);
    }
  }

  // ---- window questions are answered ----

  // What a call writes: nothing unless it flushes.
  function Writes(k: Kcb, e: Event): seq<Wire> {
    match e
    case UpdateEv(now) =>
      var t := Schedule.Update(k.clock, k.cfg.interval, now);
      if t.flush then FlushWires(k.(clock := t.clock)) else []
    case FlushEv => if k.clock.updated then FlushWires(k) else []
    case _ => []
  }

  predicate Flushes(k: Kcb, e: Event) {
    match e
    case UpdateEv(now) => Schedule.Update(k.clock, k.cfg.interval, now).flush
    case FlushEv => k.clock.updated
    case _ => false
  }

  predicate Answers(ws: seq<Wire>) {
    exists i :: 0 <= i < |ws| && ws[i].cmd == CMD_WINS
  }

  lemma {:induction false} TellKept(k: Kcb, ws: seq<Wire>)
    ensures OnWires(k, ws).prober.tell <==> k.prober.tell || exists i :: 0 <= i < |ws| && ws[i].cmd == CMD_WASK
    decreases |ws|
  {
    if ws != [] {
      TellKept(OnWire(k, ws[0]), ws[1..]);
      if i :| 0 <= i < |ws[1..]| && ws[1..][i].cmd == CMD_WASK { assert ws[i + 1].cmd == CMD_WASK; }
      if i :| 0 <= i < |ws| && ws[i].cmd == CMD_WASK { assert i > 0 ==> ws[1..][i - 1].cmd == CMD_WASK; }
    }
  }

  // A question in an accepted segment, or reading that reopens a full queue, leaves an answer owed.
  lemma QuestionNoted(k: Kcb, data: Bytes, i: nat)
    requires 24 < k.cfg.mtu && i < |Parse(k.cfg.conv, data).segs| && Parse(k.cfg.conv, data).segs[i].cmd == CMD_WASK
    ensures Engine.Input(k, data).0.prober.tell
  {
    TellKept(k, Parse(k.cfg.conv, data).segs);
  }

  lemma ReopeningNoted(k: Kcb, len: int)
    requires |k.rcv.queue| >= k.cfg.rcvWnd && Engine.Recv(k, len).1 >= 0
    ensures |Engine.Recv(k, len).0.rcv.queue| < k.cfg.rcvWnd ==> Engine.Recv(k, len).0.prober.tell
  {
  }

  lemma FlushAnswers(k: Kcb)
    requires k.prober.tell
    ensures Answers(FlushWires(k))
  {
    var ps := ProbeWires(k, Tick(k.prober, k.clock.current));
    var n := |AckWires(k)| + |ps| - 1;
    assert FlushWires(k)[n] == ps[|ps| - 1];
  }

  lemma OwedStep(k: Kcb, e: Event)
    requires 24 < k.cfg.mtu && k.prober.tell
    ensures if Flushes(k, e) then Answers(Writes(k, e)) else Step(k, e).prober.tell
  {
    match e
    case InputEv(data) => TellKept(k, Parse(k.cfg.conv, data).segs); OnWiresCfg(k, Parse(k.cfg.conv, data).segs);
    case UpdateEv(now) => FlushAnswers(k.(clock := Schedule.Update(k.clock, k.cfg.interval, now).clock));
    case FlushEv => FlushAnswers(k);
    case _ =>
  }

  // An owed answer is written by the first flush that runs, whatever happens before it.
  lemma {:induction false} OwedUntilFlush(k: Kcb, es: seq<Event>, n: nat)
    requires 24 < k.cfg.mtu && k.prober.tell && n < |es|
    requires forall i :: 0 <= i < n ==> !Flushes(Run(k, es[..i]), es[i])
    requires Flushes(Run(k, es[..n]), es[n])
    ensures Answers(Writes(Run(k, es[..n]), es[n]))
  {
    StillOwed(k, es, n);
    OwedStep(Run(k, es[..n]), es[n]);
  }

  lemma {:induction false} StillOwed(k: Kcb, es: seq<Event>, n: nat)
    requires 24 < k.cfg.mtu && k.prober.tell && n <= |es|
    requires forall i :: 0 <= i < n ==> !Flushes(Run(k, es[..i]), es[i])
    ensures Run(k, es[..n]).prober.tell
  {
    if n == 0 {
      assert es[..0] == [];
    } else {
      StillOwed(k, es, n - 1);
      assert es[..n][..n - 1] == es[..n - 1];
      OwedStep(Run(k, es[..n - 1]), es[n - 1]);
    }
  }

  // ---- the window is asked for over whole runs ----

  // The clock reading of a flush.
  function Moment(k: Kcb, e: Event): u32 {
    if e.UpdateEv? then e.now else k.clock.current
  }

  // The clock readings of all flushes of a run, in order.
  function Moments(k: Kcb, es: seq<Event>): seq<u32>
    requires 24 < k.cfg.mtu
  {
    if es == [] then []
    else
      var front, e := es[..|es| - 1], es[|es| - 1];
      var t := Run(k, front);
      Moments(k, front) + if Flushes(t, e) then [Moment(t, e)] else []
  }

  // The peer's window is closed before and after every call of a run.
  ghost predicate StaysClosed(k: Kcb, es: seq<Event>)
    requires 24 < k.cfg.mtu
  {
    forall i :: 0 <= i <= |es| ==> Run(k, es[..i]).prober.rmt == 0
  }

  // Two probers that differ at most in the answer they owe.
  predicate SameProbe(p: Prober, q: Prober) {
    p.rmt == q.rmt && p.ask == q.ask && p.ts == q.ts && p.wait == q.wait
  }

  lemma {:induction false} InputProbe(k: Kcb, ws: seq<Wire>)
    ensures var p := OnWires(k, ws).prober;
            p.ask == k.prober.ask && p.ts == k.prober.ts && p.wait == k.prober.wait
    decreases |ws|
  {
    if ws != [] { InputProbe(OnWire(k, ws[0]), ws[1..]); }
  }

  predicate Questions(ws: seq<Wire>) {
    exists i :: 0 <= i < |ws| && ws[i].cmd == CMD_WASK
  }

  lemma FlushAsks(k: Kcb)
    ensures Tick(k.prober, k.clock.current).ask ==> Questions(FlushWires(k))
  {
    var ps := ProbeWires(k, Tick(k.prober, k.clock.current));
    if Tick(k.prober, k.clock.current).ask {
      assert FlushWires(k)[|AckWires(k)|] == ps[0];
    }
  }

  // Only a flush that runs moves the probe timer.
  lemma StepProbe(k: Kcb, e: Event)
    requires 24 < k.cfg.mtu && Step(k, e).prober.rmt == k.prober.rmt
    ensures SameProbe(Step(k, e).prober, if Flushes(k, e) then Clear(Tick(k.prober, Moment(k, e))) else k.prober)
  {
    match e
    case InputEv(data) => InputProbe(k, Parse(k.cfg.conv, data).segs);
    case _ =>
  }

  lemma StepAsks(k: Kcb, e: Event)
    requires 24 < k.cfg.mtu && Flushes(k, e) && Tick(k.prober, Moment(k, e)).ask
    ensures Questions(Writes(k, e))
  {
    match e
    case UpdateEv(now) => FlushAsks(k.(clock := Schedule.Update(k.clock, k.cfg.interval, now).clock));
    case FlushEv => FlushAsks(k);
  }

  lemma TickSame(p: Prober, q: Prober, now: u32)
    requires SameProbe(p, q)
    ensures SameProbe(Clear(Tick(p, now)), Clear(Tick(q, now))) && Tick(p, now).ask == Tick(q, now).ask
  {
  }

  // The moments of the flushes of a run, on an unbounded clock.
  ghost predicate Reads(k: Kcb, es: seq<Event>, times: seq<int>)
    requires 24 < k.cfg.mtu
  {
    var ms := Moments(k, es);
    |ms| <= |times| && forall i :: 0 <= i < |ms| ==> ms[i] == Wrap(times[i])
  }

  lemma Front(k: Kcb, es: seq<Event>, times: seq<int>)
    requires 24 < k.cfg.mtu && es != [] && StaysClosed(k, es) && Reads(k, es, times)
    ensures var front := es[..|es| - 1];
            && StaysClosed(k, front) && Reads(k, front, times)
            && Run(k, front).prober.rmt == Run(k, es).prober.rmt == 0
  {
    var front := es[..|es| - 1];
    assert Moments(k, front) <= Moments(k, es);
    forall i | 0 <= i <= |front| ensures Run(k, front[..i]).prober.rmt == 0 { assert front[..i] == es[..i]; }
    assert es[..|es|] == es;
  }

  // The flushes of a run take the probe timer through the states of `StateAt`, whatever else is
  // called in between.
  lemma {:induction false} ProbeOverRun(k: Kcb, es: seq<Event>, times: seq<int>)
    requires 24 < k.cfg.mtu && StaysClosed(k, es) && Reads(k, es, times)
    ensures SameProbe(Run(k, es).prober, StateAt(k.prober, times, |Moments(k, es)|))
  {
    if es != [] {
      var front, e := es[..|es| - 1], es[|es| - 1];
      Front(k, es, times);
      ProbeOverRun(k, front, times);
      var t, m := Run(k, front), |Moments(k, front)|;
      assert Step(t, e) == Run(k, es);
      if Flushes(t, e) { assert Moments(k, es)[m] == Moment(t, e); }
      StepProbe(t, e);
      var moment: u32 := if Flushes(t, e) then Moment(t, e) else 0;
      ProbeOneCall(k.prober, t.prober, Step(t, e).prober, Flushes(t, e), moment, times, m);
    }
  }

  lemma ProbeOneCall(start: Prober, p: Prober, next: Prober, flushes: bool, moment: u32, times: seq<int>, m: nat)
    requires SameProbe(next, if flushes then Clear(Tick(p, moment)) else p) && next.rmt == p.rmt
    requires m <= |times| && SameProbe(p, StateAt(start, times, m))
    requires flushes ==> m < |times| && moment == Wrap(times[m])
    ensures SameProbe(next, StateAt(start, times, if flushes then m + 1 else m))
  {
    if flushes { TickSame(p, StateAt(start, times, m), moment); }
  }

  // Flush number `f` of a run is made by some call.
  lemma {:induction false} FlushNumber(k: Kcb, es: seq<Event>, f: nat) returns (n: nat)
    requires 24 < k.cfg.mtu && f < |Moments(k, es)|
    ensures n < |es| && Flushes(Run(k, es[..n]), es[n])
    ensures |Moments(k, es[..n])| == f && Moments(k, es)[f] == Moment(Run(k, es[..n]), es[n])
    ensures Moments(k, es[..n]) <= Moments(k, es)
    decreases |es|
  {
    var front := es[..|es| - 1];
    if f < |Moments(k, front)| {
      n := FlushNumber(k, front, f);
      assert front[..n] == es[..n];
    } else {
      n := |es| - 1;
    }
  }

  // The flush of a run whose turn it is to ask writes a window question.
  lemma AsksAtFlush(k: Kcb, es: seq<Event>, times: seq<int>, f: nat) returns (n: nat)
    requires 24 < k.cfg.mtu && StaysClosed(k, es) && Reads(k, es, times)
    requires f < |Moments(k, es)| && Asks(k.prober, times, f)
    ensures n < |es| && |Moments(k, es[..n])| == f && Flushes(Run(k, es[..n]), es[n])
    ensures Questions(Writes(Run(k, es[..n]), es[n]))
  {
    n := FlushNumber(k, es, f);
    forall i | 0 <= i <= n ensures Run(k, es[..n][..i]).prober.rmt == 0 { assert es[..n][..i] == es[..i]; }
    ProbeOverRun(k, es[..n], times);
    var t := Run(k, es[..n]);
    TickSame(t.prober, StateAt(k.prober, times, f), Wrap(times[f]));
    StepAsks(t, es[n]);
  }

  // While the peer's window stays closed and flushes are at most `gap` apart, the flush that
  // arms the timer is followed within 7000 + gap, and every one that asks within 120000 + gap, by
  // a flush that writes a window question, whatever is called in between.
  lemma QuestionsKeepComing(k: Kcb, es: seq<Event>, times: seq<int>, gap: nat, i: nat, j: nat)
    requires 24 < k.cfg.mtu && ProbeInv(k.prober) && StaysClosed(k, es)
    requires |times| == |Moments(k, es)| && Reads(k, es, times) && Probe.Paced(times, gap) && gap < 0x8000_0000
    requires i < j < |times| && (StateAt(k.prober, times, i).wait == 0 || Asks(k.prober, times, i))
    requires times[j] >= times[i] + StateAt(k.prober, times, i + 1).wait
    ensures StateAt(k.prober, times, i + 1).wait <= if StateAt(k.prober, times, i).wait == 0 then 7000 else 120000
    ensures exists f: nat, n: nat :: i < f <= j && n < |es| && |Moments(k, es[..n])| == f
              && Questions(Writes(Run(k, es[..n]), es[n]))
              && times[f] <= times[i] + StateAt(k.prober, times, i + 1).wait + gap
  {
    assert es[..0] == [];
    ProbesKeepComing(k.prober, times, gap, i, j);
    var f :| && i < f <= j && Asks(k.prober, times, f)
             && times[f] <= times[i] + StateAt(k.prober, times, i + 1).wait + gap;
    var n := AsksAtFlush(k, es, times, f);
  }

  // ---- the oracle ----

  function UpdateAll(k: Kcb, times: seq<u32>): Kcb {
    if times == [] then k else Engine.Update(UpdateAll(k, times[..|times| - 1]), times[|times| - 1]).0
  }

  // Any number of updates before the time `ikcp_check` answers change nothing but the current
  // time and write nothing.
  lemma {:induction false} SleepsUntilChecked(k: Kcb, now: u32, times: seq<u32>)
    requires forall i :: 0 <= i < |times| ==> Dist(now, times[i]) < Dist(now, Engine.Check(k, now))
    ensures UpdateAll(k, times) == if times == [] then k else k.(clock := k.clock.(current := times[|times| - 1]))
    ensures forall i :: 0 <= i < |times| ==> Engine.Update(UpdateAll(k, times[..i]), times[i]).1 == []
  {
    if times != [] {
      var front, last := times[..|times| - 1], times[|times| - 1];
      SleepsUntilChecked(k, now, front);
      var t := UpdateAll(k, front);
      assert Engine.Check(t, now) == Engine.Check(k, now);
      Schedule.EarlyUpdate(t.clock, k.cfg.interval, Deadlines(k.snd.buf), now, last);
      forall i | 0 <= i < |times| ensures Engine.Update(UpdateAll(k, times[..i]), times[i]).1 == [] {
        if i < |front| { assert times[..i] == front[..i]; } else { assert times[..i] == front; }
      }
    }
  }
}
