/** Zero-window probing: the part of `ikcp_flush` that decides when to ask the peer for its
    window, and the two request flags. */
module Probe {
  import opened Words
  import opened Segments

  /** `rmt_wnd`, the two bits of `probe`, `ts_probe` and `probe_wait`. */
  datatype Prober = Prober(rmt: u16, ask: bool, tell: bool, ts: u32, wait: u32)

  // The probing block of a flush at time `now`.
  function Tick(p: Prober, now: u32): Prober {
    if p.rmt != 0 then p.(ts := 0, wait := 0)
    else if p.wait == 0 then p.(wait := PROBE_INIT, ts := Add(now, PROBE_INIT))
    else if Diff(now, p.ts) < 0 then p
    else
      var base := if p.wait < PROBE_INIT then PROBE_INIT else p.wait;
      var grown := Add(base, base / 2);
      var wait := if grown > PROBE_LIMIT then PROBE_LIMIT else grown;
      p.(wait := wait, ts := Add(now, wait), ask := true)
  }

  // The flags are cleared once their segments have been written.
  function Clear(p: Prober): Prober {
    p.(ask := false, tell := false)
  }

  // Between flushes `ask` is off and the waiting time is 0 or between 7 and 120 seconds.
  predicate ProbeInv(p: Prober) {
    !p.ask && (p.wait == 0 || 7000 <= p.wait <= 120000)
  }

  // The waiting time starts at 7 seconds, grows by half and stops at 120 seconds.
  lemma TickKeeps(p: Prober, now: u32)
    requires ProbeInv(p)
    ensures var q := Tick(p, now);
            && ProbeInv(Clear(q))
            && q.rmt == p.rmt && q.tell == p.tell
            && (q.ask ==> q.wait == Min(p.wait + p.wait / 2, 120000) && p.wait != 0 && Diff(now, p.ts) >= 0)
            && (q.wait == 0 <==> p.rmt != 0)
  {
  }

  // ---- liveness over whole runs, on an unbounded clock ----

  // The state before flush i of a run that starts in `p` and flushes at the given times while
  // nothing is received.
  ghost function StateAt(p: Prober, times: seq<int>, i: nat): Prober
    requires i <= |times|
  {
    if i == 0 then p else Clear(Tick(StateAt(p, times, i - 1), Wrap(times[i - 1])))
  }

  // Flush i writes a window probe.
  ghost predicate Asks(p: Prober, times: seq<int>, i: nat)
    requires i < |times|
  {
    Tick(StateAt(p, times, i), Wrap(times[i])).ask
  }

  // The probe timer is set for the unbounded moment `due`.
  ghost predicate Armed(p: Prober, due: int) {
    p.rmt == 0 && !p.ask && 7000 <= p.wait <= 120000 && p.ts == Wrap(due)
  }

  lemma Arms(p: Prober, t: int)
    requires p.rmt == 0 && ProbeInv(p) && (p.wait == 0 || Tick(p, Wrap(t)).ask)
    ensures var q := Clear(Tick(p, Wrap(t)));
            Armed(q, t + q.wait) && (p.wait == 0 ==> q.wait == 7000)
  {
    AddWrap(t, Tick(p, Wrap(t)).wait);
  }

  // An armed timer fires exactly when the due time has come; until then nothing changes.
  lemma ArmedStep(p: Prober, due: int, t: int)
    requires Armed(p, due)
    ensures -0x8000_0000 <= t - due < 0x8000_0000 ==> (Tick(p, Wrap(t)).ask <==> t >= due)
    ensures !Tick(p, Wrap(t)).ask ==> Clear(Tick(p, Wrap(t))) == p.(tell := false)
  {
    if -0x8000_0000 <= t - due < 0x8000_0000 { DiffExact(t, due); }
  }

  lemma {:induction false} Closed(p: Prober, times: seq<int>, i: nat)
    requires p.rmt == 0 && ProbeInv(p) && i <= |times|
    ensures StateAt(p, times, i).rmt == 0 && ProbeInv(StateAt(p, times, i))
  {
    if i > 0 {
      Closed(p, times, i - 1);
      TickKeeps(StateAt(p, times, i - 1), Wrap(times[i - 1]));
    }
  }

  lemma {:induction false} Quiet(p: Prober, times: seq<int>, due: int, i: nat, j: nat)
    requires i <= j <= |times| && Armed(StateAt(p, times, i), due)
    requires forall k :: i <= k < j ==> !Asks(p, times, k)
    ensures Armed(StateAt(p, times, j), due)
  {
    if i < j {
      Quiet(p, times, due, i, j - 1);
      ArmedStep(StateAt(p, times, j - 1), due, times[j - 1]);
      assert !Asks(p, times, j - 1);
    }
  }

  ghost predicate Paced(times: seq<int>, gap: nat) {
    forall i :: 0 < i < |times| ==> 0 <= times[i] - times[i - 1] <= gap
  }

  lemma Fires(p: Prober, times: seq<int>, gap: nat, due: int, i: nat, m: nat)
    requires Paced(times, gap) && gap < 0x8000_0000 && 1 <= i <= m < |times|
    requires Armed(StateAt(p, times, i), due) && times[m - 1] < due <= times[m]
    ensures exists k :: i <= k <= m && Asks(p, times, k)
  {
    if forall k :: i <= k < m ==> !Asks(p, times, k) {
      Quiet(p, times, due, i, m);
      ArmedStep(StateAt(p, times, m), due, times[m]);
      assert Asks(p, times, m);
    }
  }

  lemma {:induction false} Ordered(times: seq<int>, gap: nat, i: nat, j: nat)
    requires Paced(times, gap) && i <= j < |times|
    ensures times[i] <= times[j]
  {
    if i < j { Ordered(times, gap, i, j - 1); }
  }

  // While the peer's window stays closed and flushes are at most `gap` apart, a probe follows
  // the flush that arms the timer within 7000 + gap, and the next probe follows every probe
  // within 120000 + gap.
  lemma ProbesKeepComing(p: Prober, times: seq<int>, gap: nat, i: nat, j: nat)
    requires p.rmt == 0 && ProbeInv(p) && Paced(times, gap) && gap < 0x8000_0000 && i < j < |times|
    requires StateAt(p, times, i).wait == 0 || Asks(p, times, i)
    requires times[j] >= times[i] + StateAt(p, times, i + 1).wait
    ensures StateAt(p, times, i + 1).wait <= if StateAt(p, times, i).wait == 0 then 7000 else 120000
    ensures exists k :: i < k <= j && Asks(p, times, k)
                        && times[k] <= times[i] + StateAt(p, times, i + 1).wait + gap
  {
    Closed(p, times, i);
    Arms(StateAt(p, times, i), times[i]);
    var due := times[i] + StateAt(p, times, i + 1).wait;
    var m := i + 1;
    while times[m] < due
      invariant i < m <= j && times[m - 1] < due
      decreases j - m
    {
      m := m + 1;
    }
    Fires(p, times, gap, due, i + 1, m);
    var k :| i + 1 <= k <= m && Asks(p, times, k);
    Ordered(times, gap, k, m);
  }
}
