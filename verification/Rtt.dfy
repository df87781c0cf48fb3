/** The round-trip estimator of `ikcp_update_ack`, in the style of section 2 of RFC 6298, with the
    32-bit arithmetic of the source written out. */
module Rtt {
  import opened Words
  import opened Segments

  datatype Estimator = Estimator(srtt: int, rttval: int, rto: u32)

  function Abs(x: int): int {
    if x < 0 then -x else x
  }

  // One sample.  Products and sums of `int` operands are read modulo 2^32 as signed words.
  function Smoothed(srtt: int, rtt: int): int {
    if srtt == 0 then rtt else Max(TruncDiv(Int32(7 * srtt + rtt), 8), 1)
  }

  function Variation(e: Estimator, rtt: int): int {
    if e.srtt == 0 then TruncDiv(rtt, 2)
    else Int32(TruncDiv(Int32(3 * e.rttval) + Abs(Int32(rtt - e.srtt)), 4))
  }

  function Timeout(srtt: int, rttval: int, minrto: u32, interval: u32): u32 {
    Min(Max(minrto, Wrap(srtt + Max(interval, Wrap(4 * rttval)))), RTO_MAX)
  }

  function Sample(e: Estimator, minrto: u32, interval: u32, rtt: int): Estimator {
    var srtt, rttval := Smoothed(e.srtt, rtt), Variation(e, rtt);
    Estimator(srtt, rttval, Timeout(srtt, rttval, minrto, interval))
  }

  // The same sample over unbounded integers.
  function Ideal(e: Estimator, minrto: u32, interval: u32, rtt: nat): Estimator
    requires e.srtt >= 0 && e.rttval >= 0
  {
    var srtt := if e.srtt == 0 then rtt else Max((7 * e.srtt + rtt) / 8, 1);
    var rttval := if e.srtt == 0 then rtt / 2 else (3 * e.rttval + Abs(rtt - e.srtt)) / 4;
    Estimator(srtt, rttval, Min(Max(minrto, srtt + Max(interval, 4 * rttval)), RTO_MAX))
  }

  function Samples(e: Estimator, minrto: u32, interval: u32, rtts: seq<int>): Estimator {
    if rtts == [] then e
    else Sample(Samples(e, minrto, interval, rtts[..|rtts| - 1]), minrto, interval, rtts[|rtts| - 1])
  }

  lemma {:induction false} SamplesConcat(e: Estimator, minrto: u32, interval: u32, a: seq<int>, b: seq<int>)
    ensures Samples(e, minrto, interval, a + b) == Samples(Samples(e, minrto, interval, a), minrto, interval, b)
    decreases |b|
  {
    if b == [] {
      assert a + b == a;
    } else {
      var front := b[..|b| - 1];
      assert (a + b)[..|a + b| - 1] == a + front;
      SamplesConcat(e, minrto, interval, a, front);
    }
  }

  const START := Estimator(0, 0, RTO_DEF)

  // Whatever the sample, the timeout is clamped between the configured minimum and 60 seconds.
  lemma RtoClamped(e: Estimator, minrto: u32, interval: u32, rtt: int)
    ensures Min(minrto, 60000) <= Sample(e, minrto, interval, rtt).rto <= 60000
  {
  }

  lemma SmoothedExact(srtt: nat, rtt: nat, lo: nat, hi: nat)
    requires lo <= rtt <= hi < 0x1000_0000 && 1 <= hi && srtt <= hi && (srtt == 0 || lo <= srtt)
    ensures Smoothed(srtt, rtt) == if srtt == 0 then rtt else Max((7 * srtt + rtt) / 8, 1)
    ensures lo <= Smoothed(srtt, rtt) <= hi
  {
    Int32Small(7 * srtt + rtt);
  }

  lemma VariationExact(e: Estimator, rtt: nat, hi: nat)
    requires rtt <= hi < 0x1000_0000 && 0 <= e.srtt <= hi && 0 <= e.rttval <= hi
    ensures Variation(e, rtt) == if e.srtt == 0 then rtt / 2 else (3 * e.rttval + Abs(rtt - e.srtt)) / 4
    ensures 0 <= Variation(e, rtt) <= hi
  {
    Int32Small(3 * e.rttval);
    Int32Small(rtt - e.srtt);
    Int32Small((3 * e.rttval + Abs(rtt - e.srtt)) / 4);
  }

  lemma TimeoutExact(srtt: nat, rttval: nat, minrto: u32, interval: u32)
    requires interval <= 5000 && srtt < 0x1000_0000 && rttval < 0x1000_0000
    ensures Timeout(srtt, rttval, minrto, interval) == Min(Max(minrto, srtt + Max(interval, 4 * rttval)), 60000)
  {
    WrapSmall(4 * rttval);
    WrapSmall(srtt + Max(interval, 4 * rttval));
  }

  // Below 2^28 no operation overflows: the 32-bit computation is the unbounded one, the smoothed
  // value stays between smallest and largest sample and the variation below the bound.
  lemma SampleExact(e: Estimator, minrto: u32, interval: u32, rtt: nat, lo: nat, hi: nat)
    requires interval <= 5000 && lo <= rtt <= hi < 0x1000_0000 && 1 <= hi
    requires 0 <= e.srtt <= hi && 0 <= e.rttval <= hi && (e.srtt == 0 || lo <= e.srtt)
    ensures var f := Sample(e, minrto, interval, rtt);
            f == Ideal(e, minrto, interval, rtt) && lo <= f.srtt <= hi && 0 <= f.rttval <= hi
  {
    SmoothedExact(e.srtt, rtt, lo, hi);
    VariationExact(e, rtt, hi);
    var f, i := Sample(e, minrto, interval, rtt), Ideal(e, minrto, interval, rtt);
    assert f.srtt == i.srtt && f.rttval == i.rttval;
    TimeoutExact(i.srtt, i.rttval, minrto, interval);
    assert f.rto == i.rto;
  }

  // The bounds over every sequence of samples.
  lemma {:induction false} SamplesBounded(minrto: u32, interval: u32, rtts: seq<int>, lo: nat, hi: nat)
    requires interval <= 5000 && 1 <= hi < 0x1000_0000
    requires forall i :: 0 <= i < |rtts| ==> lo <= rtts[i] <= hi
    ensures var e := Samples(START, minrto, interval, rtts);
            && 0 <= e.rttval <= hi
            && (rtts == [] ==> e == START)
            && (rtts != [] ==> lo <= e.srtt <= hi)
            && (rtts != [] ==> e.rto == Min(Max(minrto, e.srtt + Max(interval, 4 * e.rttval)), 60000))
  {
    if rtts != [] {
      var front, last := rtts[..|rtts| - 1], rtts[|rtts| - 1];
      SamplesBounded(minrto, interval, front, lo, hi);
      SampleExact(Samples(START, minrto, interval, front), minrto, interval, last, lo, hi);
    }
  }

  // All samples over unbounded integers.
  function Ideals(e: Estimator, minrto: u32, interval: u32, rtts: seq<nat>): (f: Estimator)
    requires e.srtt >= 0 && e.rttval >= 0
    ensures f.srtt >= 0 && f.rttval >= 0
  {
    if rtts == [] then e
    else Ideal(Ideals(e, minrto, interval, rtts[..|rtts| - 1]), minrto, interval, rtts[|rtts| - 1])
  }

  // Below 2^28 the 32-bit computation is the unbounded one over every sequence of samples.
  lemma {:induction false} SamplesExact(minrto: u32, interval: u32, rtts: seq<nat>, hi: nat)
    requires interval <= 5000 && 1 <= hi < 0x1000_0000
    requires forall i :: 0 <= i < |rtts| ==> rtts[i] <= hi
    ensures Samples(START, minrto, interval, rtts) == Ideals(START, minrto, interval, rtts)
  {
    if rtts != [] {
      var front, last := rtts[..|rtts| - 1], rtts[|rtts| - 1];
      SamplesExact(minrto, interval, front, hi);
      SamplesBounded(minrto, interval, front, 0, hi);
      SampleExact(Samples(START, minrto, interval, front), minrto, interval, last, 0, hi);
    }
  }

  // What samples between |lo| and |hi| lead to: the estimator over unbounded integers, smoothed and
  // varying within bounds, with the timeout of RFC 6298 between its two limits.
  ghost predicate Estimates(e: Estimator, minrto: u32, interval: u32, rtts: seq<int>, lo: nat, hi: nat)
    requires forall i :: 0 <= i < |rtts| ==> rtts[i] >= 0
  {
    && e == Ideals(START, minrto, interval, rtts)
    && (rtts == [] ==> e.srtt == 0 && e.rttval == 0 && e.rto == 200)
    && (rtts != [] ==> lo <= e.srtt <= hi && 0 <= e.rttval <= hi)
    && (rtts != [] ==> e.rto == Min(Max(minrto, e.srtt + Max(interval, 4 * e.rttval)), 60000))
  }

  lemma SamplesEstimate(minrto: u32, interval: u32, rtts: seq<int>, lo: nat, hi: nat)
    requires interval <= 5000 && 1 <= hi < 0x1000_0000
    requires forall i :: 0 <= i < |rtts| ==> lo <= rtts[i] <= hi
    ensures Estimates(Samples(START, minrto, interval, rtts), minrto, interval, rtts, lo, hi)
  {
    SamplesBounded(minrto, interval, rtts, lo, hi);
    SamplesExact(minrto, interval, rtts, hi);
  }

  function Constant(n: nat, r: int): (s: seq<int>)
    ensures |s| == n
  {
    seq(n, _ => r)
  }

  // How far the smoothed value lies outside the band [r-7, r], and the variation above 7.
  function Outside(e: Estimator, r: int): nat {
    if e.srtt == 0 then 1 else if e.srtt > r then e.srtt - r else Max(0, r - 7 - e.srtt)
  }

  function Excess(e: Estimator): nat {
    Max(0, e.rttval - 7)
  }

  lemma ConstantStep(e: Estimator, minrto: u32, interval: u32, r: nat, hi: nat)
    requires interval <= 5000 && 1 <= r <= hi < 0x1000_0000 && 0 <= e.srtt <= hi && 0 <= e.rttval <= hi
    ensures var f := Sample(e, minrto, interval, r);
            && 1 <= f.srtt <= hi && 0 <= f.rttval <= hi
            && Outside(f, r) <= Max(0, Outside(e, r) - 1)
            && (Outside(e, r) == 0 ==> Excess(f) <= Max(0, Excess(e) - 1))
  {
    SampleExact(e, minrto, interval, r, if e.srtt == 0 then 1 else Min(r, e.srtt), hi);
  }

  // Under a constant round trip the smoothed value reaches the band [r-7, r] and the variation
  // falls to at most 7, both for good, within an explicit number of samples.
  lemma {:induction false} Settles(e: Estimator, minrto: u32, interval: u32, r: nat, hi: nat, n: nat)
    requires interval <= 5000 && 1 <= r <= hi < 0x1000_0000 && 0 <= e.srtt <= hi && 0 <= e.rttval <= hi
    ensures var f := Samples(e, minrto, interval, Constant(n, r));
            && 0 <= f.srtt <= hi && 0 <= f.rttval <= hi
            && Outside(f, r) <= Max(0, Outside(e, r) - n)
            && (n >= Outside(e, r) ==> r - 7 <= f.srtt <= r)
            && (n >= Outside(e, r) ==> Excess(f) <= Max(0, hi - (n - Outside(e, r))))
            && (n >= Outside(e, r) + hi ==> f.rttval <= 7)
  {
    if n > 0 {
      assert Constant(n, r)[..n - 1] == Constant(n - 1, r);
      Settles(e, minrto, interval, r, hi, n - 1);
      ConstantStep(Samples(e, minrto, interval, Constant(n - 1, r)), minrto, interval, r, hi);
    }
  }
}
