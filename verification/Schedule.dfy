/** The flush schedule of `ikcp_update` and the oracle `ikcp_check`. */
module Schedule {
  import opened Words
  import opened Arithmetic

  /** `current`, `ts_flush` and `updated`. */
  datatype Clock = Clock(current: u32, flushAt: u32, updated: bool)

  /** What one `ikcp_update` does to the clock, and whether it flushes. */
  datatype Tock = Tock(clock: Clock, flush: bool)

  function Update(c: Clock, interval: u32, now: u32): Tock {
    var first := if c.updated then c.flushAt else now;
    var slap := Diff(now, first);
    var base := if slap >= 10000 || slap < -10000 then now else first;
    if Diff(now, base) < 0 then Tock(Clock(now, base, true), false)
    else
      var next := Add(base, interval);
      Tock(Clock(now, if Diff(now, next) >= 0 then Add(now, interval) else next, true), true)
  }

  // The smaller of two waiting times, 0 meaning that a segment is due already.
  function Least(a: nat, b: nat): nat {
    if b == 0 then 0 else Min(a, b)
  }

  // The least time until a segment in flight is due, at most 2^31 - 1; 0 when one is due already.
  function PacketWait(resendts: seq<u32>, now: u32): nat {
    if resendts == [] then 0x7fff_ffff
    else
      var d := Diff(resendts[0], now);
      if d <= 0 then 0 else Least(d, PacketWait(resendts[1..], now))
  }

  lemma {:induction false} PacketWaitIs(resendts: seq<u32>, now: u32)
    ensures var w := PacketWait(resendts, now);
            && w <= 0x7fff_ffff
            && (w == 0 <==> exists i :: 0 <= i < |resendts| && Diff(resendts[i], now) <= 0)
            && (w > 0 ==> forall i :: 0 <= i < |resendts| ==> w <= Diff(resendts[i], now))
            && (w == 0x7fff_ffff || w == 0 || exists i :: 0 <= i < |resendts| && w == Diff(resendts[i], now))
  {
    if resendts != [] {
      var rest := resendts[1..];
      PacketWaitIs(rest, now);
      assert forall i :: 0 <= i < |rest| ==> rest[i] == resendts[i + 1];
      assert forall i :: 0 < i < |resendts| ==> resendts[i] == rest[i - 1];
      if i :| 0 <= i < |rest| && Diff(rest[i], now) <= 0 { assert Diff(resendts[i + 1], now) <= 0; }
      if i :| 0 <= i < |rest| && PacketWait(rest, now) == Diff(rest[i], now) {
        assert PacketWait(rest, now) == Diff(resendts[i + 1], now);
      }
    }
  }

  // `ikcp_check`.
  function Check(c: Clock, interval: u32, resendts: seq<u32>, now: u32): u32 {
    var slap := Diff(now, c.flushAt);
    if !c.updated || slap >= 10000 || slap < -10000 || slap >= 0 then now
    else
      var packet, flush := PacketWait(resendts, now), Diff(c.flushAt, now);
      if packet == 0 then now else Add(now, Min(Min(packet, flush), interval))
  }

  // ---- what an update and the oracle answer ----

  // The first update flushes, and so does every one whose flush is due or that finds the clock 10
  // seconds or more away from the schedule; any other changes nothing but the current time.  The
  // schedule keeps its grid while it is less than an interval late and starts anew from |now|
  // otherwise.
  lemma UpdateExact(c: Clock, interval: u32, now: u32)
    requires interval < 10000
    ensures var r, late := Update(c, interval, now), Diff(now, c.flushAt);
            if c.updated && -10000 <= late < 0 then r == Tock(Clock(now, c.flushAt, true), false)
            else if c.updated && 0 <= late < interval then
              r == Tock(Clock(now, Wrap(c.flushAt + interval), true), true)
            else r == Tock(Clock(now, Wrap(now + interval), true), true)
  {
    WrapSmall(now);
    WrapSmall(c.flushAt);
    AddWrap(now, interval);
    AddWrap(c.flushAt, interval);
  }

  // Before the first update, when a flush or a segment is due, or when the clock is 10 seconds or
  // more away from the schedule, the oracle says now.
  lemma CheckDue(c: Clock, interval: u32, resendts: seq<u32>, now: u32)
    requires || !c.updated || Diff(now, c.flushAt) >= 0 || Diff(now, c.flushAt) < -10000
             || exists i :: 0 <= i < |resendts| && Diff(resendts[i], now) <= 0
    ensures Check(c, interval, resendts, now) == now
  {
    PacketWaitIs(resendts, now);
  }

  // Otherwise its answer is as far ahead as the nearest of three: the next flush, the first segment
  // to fall due, and an interval.
  lemma CheckExact(c: Clock, interval: u32, resendts: seq<u32>, now: u32)
    requires c.updated && -10000 <= Diff(now, c.flushAt) < 0
    requires forall i :: 0 <= i < |resendts| ==> Diff(resendts[i], now) > 0
    ensures var wait := Dist(now, Check(c, interval, resendts, now));
            && wait <= interval && wait <= Diff(c.flushAt, now)
            && (forall i :: 0 <= i < |resendts| ==> wait <= Diff(resendts[i], now))
            && (|| wait == interval || wait == Diff(c.flushAt, now)
                || exists i :: 0 <= i < |resendts| && wait == Diff(resendts[i], now))
  {
    PacketWaitIs(resendts, now);
    var packet, flush := PacketWait(resendts, now), Diff(c.flushAt, now);
    Ahead(now, Min(Min(packet, flush), interval));
  }

  lemma Ahead(now: u32, wait: u32)
    ensures Dist(now, Add(now, wait)) == wait
  {
  }

  // ---- the oracle agrees with the update ----

  // If an update would flush now, the oracle says now.
  lemma CheckSaysNow(c: Clock, interval: u32, resendts: seq<u32>, now: u32)
    requires Update(c, interval, now).flush
    ensures Check(c, interval, resendts, now) == now
  {
  }

  // An update before the answered time does not flush and changes only the current time.
  lemma EarlyUpdate(c: Clock, interval: u32, resendts: seq<u32>, now: u32, t: u32)
    requires 0 <= Dist(now, t) < Dist(now, Check(c, interval, resendts, now))
    ensures Update(c, interval, t) == Tock(c.(current := t), false)
  {
  }

  function Updates(c: Clock, interval: u32, times: seq<u32>): Clock
    decreases |times|
  {
    if times == [] then c else Updates(Update(c, interval, times[0]).clock, interval, times[1..])
  }

  // Any number of updates before the answered time: none flushes, only `current` moves.
  lemma {:induction false} CheckIsSound(c: Clock, interval: u32, resendts: seq<u32>, now: u32, times: seq<u32>)
    requires forall i :: 0 <= i < |times| ==> Dist(now, times[i]) < Dist(now, Check(c, interval, resendts, now))
    ensures forall i :: 0 <= i < |times| ==> !Update(Updates(c, interval, times[..i]), interval, times[i]).flush
    ensures Updates(c, interval, times) == c.(current := if times == [] then c.current else times[|times| - 1])
    decreases |times|
  {
    if times != [] {
      var d, rest := c.(current := times[0]), times[1..];
      EarlyUpdate(c, interval, resendts, now, times[0]);
      assert Check(d, interval, resendts, now) == Check(c, interval, resendts, now);
      CheckIsSound(d, interval, resendts, now, rest);
      forall i | 0 <= i < |times| ensures !Update(Updates(c, interval, times[..i]), interval, times[i]).flush {
        if i > 0 {
          assert times[..i][1..] == rest[..i - 1] && times[i] == rest[i - 1];
        }
      }
    }
  }

  // When nothing in flight falls due earlier and the flush is at most an interval away, the
  // answer is the first instant at which an update flushes.
  lemma CheckIsTight(c: Clock, interval: u32, now: u32)
    requires c.updated && 0 < Diff(c.flushAt, now) <= interval <= 5000
    ensures Check(c, interval, [], now) == c.flushAt
    ensures Update(c, interval, Check(c, interval, [], now)).flush
  {
  }

  // ---- how often a run of updates flushes, on an unbounded clock ----

  ghost function After(c: Clock, interval: u32, times: seq<int>): Clock {
    if times == [] then c
    else Update(After(c, interval, times[..|times| - 1]), interval, Wrap(times[|times| - 1])).clock
  }

  ghost function Flushes(c: Clock, interval: u32, times: seq<int>): nat {
    if times == [] then 0
    else
      var front := times[..|times| - 1];
      Flushes(c, interval, front) +
      if Update(After(c, interval, front), interval, Wrap(times[|times| - 1])).flush then 1 else 0
  }

  ghost predicate Paced(times: seq<int>) {
    forall i :: 0 < i < |times| ==> 0 <= times[i] - times[i - 1] < 0x8000_0000
  }

  // One update at time t of a schedule whose next flush is due at the unbounded time `due`.
  lemma UpdateStep(c: Clock, interval: u32, due: int, t: int) returns (next: int)
    requires 10 <= interval <= 5000 && c.updated && c.flushAt == Wrap(due)
    requires -5000 <= t - due < 0x8000_0000
    ensures var r := Update(c, interval, Wrap(t));
            && r.clock.updated && r.clock.flushAt == Wrap(next)
            && (r.flush <==> t >= due)
            && (!r.flush ==> next == due)
            && (r.flush ==> due + interval <= next && t < next <= t + interval)
  {
    DiffExact(t, due);
    var late := t - due >= 10000;
    var base := if late then t else due;
    DiffExact(t, base);
    DiffExact(t, base + interval);
    AddWrap(base, interval);
    AddWrap(t, interval);
    next := if t < due then due else if t >= base + interval then t + interval else base + interval;
  }

  lemma {:induction false} DueAfter(c: Clock, interval: u32, times: seq<int>) returns (due: int)
    requires 10 <= interval <= 5000 && !c.updated && times != [] && Paced(times)
    ensures var last := times[|times| - 1];
            && After(c, interval, times).updated && After(c, interval, times).flushAt == Wrap(due)
            && last < due <= last + interval
            && times[0] + Flushes(c, interval, times) * interval <= due
  {
    var front, last := times[..|times| - 1], times[|times| - 1];
    if front == [] {
      AddWrap(last, interval);
      DiffExact(last, last + interval);
      assert Flushes(c, interval, times) == 1;
      due := last + interval;
    } else {
      var d := DueAfter(c, interval, front);
      assert times[|times| - 2] == front[|front| - 1];
      due := UpdateStep(After(c, interval, front), interval, d, last);
      MulSucc(Flushes(c, interval, front), interval);
    }
  }

  lemma CountBound(n: int, d: int, first: int, due: int, last: int)
    requires d > 0 && first + n * d <= due <= last + d
    ensures n <= 1 + (last - first) / d
  {
    var span := last - first;
    var q := span / d;
    assert span == q * d + span % d;
    MulSucc(q, d);
    if n > q + 1 {
      MulSucc(q + 1, d);
      MulMono(q + 2, n, d);
    }
  }

  // At most one flush per interval after the first.
  lemma FlushRate(c: Clock, interval: u32, times: seq<int>)
    requires 10 <= interval <= 5000 && !c.updated && times != [] && Paced(times)
    ensures Flushes(c, interval, times) <= 1 + (times[|times| - 1] - times[0]) / interval
  {
    var due := DueAfter(c, interval, times);
    CountBound(Flushes(c, interval, times), interval, times[0], due, times[|times| - 1]);
  }

  // After every update the next flush lies ahead, by at most an interval.
  lemma NextFlushAhead(c: Clock, interval: u32, times: seq<int>)
    requires 10 <= interval <= 5000 && !c.updated && times != [] && Paced(times)
    ensures 0 < Diff(After(c, interval, times).flushAt, Wrap(times[|times| - 1])) <= interval
  {
    var due := DueAfter(c, interval, times);
    DiffExact(due, times[|times| - 1]);
  }
}
