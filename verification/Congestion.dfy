/** The congestion window: growth in `ikcp_input`, reduction in `ikcp_flush`, in the 32-bit
    arithmetic of the source, and the byte counter `incr` that shadows it. */
module Congestion {
  import opened Words
  import opened Arithmetic
  import opened Segments

  datatype Cong = Cong(cwnd: u32, incr: u32, ssthresh: u32)

  function WrapMul(a: u32, b: u32): u32 {
    Wrap(a * b)
  }

  // What one round of congestion avoidance adds to the byte counter.
  function Growth(mss: u32, incr: u32): int
    requires incr > 0
  {
    WrapMul(mss, mss) / incr + mss / 16
  }

  // The byte counter in whole segments, rounded up.
  function WholeSegments(incr: u32, mss: u32): u32
    requires mss > 0
  {
    Wrap(incr + mss - 1) / mss
  }

  // The congestion-avoidance branch.
  function Creep(c: Cong, mss: u32): Cong
    requires mss > 0
  {
    var base := if c.incr < mss then mss else c.incr;
    var incr := Wrap(base + Growth(mss, base));
    Cong(if WrapMul(Add(c.cwnd, 1), mss) <= incr then WholeSegments(incr, mss) else c.cwnd, incr, c.ssthresh)
  }

  function CapAt(c: Cong, mss: u32, rmt: u16): Cong {
    if c.cwnd > rmt then Cong(rmt, WrapMul(rmt, mss), c.ssthresh) else c
  }

  // End of `ikcp_input` when `snd_una` has advanced.
  function Grow(c: Cong, mss: u32, rmt: u16): Cong
    requires mss > 0
  {
    if c.cwnd >= rmt then c
    else
      var grown := if c.cwnd < c.ssthresh then Cong(Add(c.cwnd, 1), Add(c.incr, mss), c.ssthresh) else Creep(c, mss);
      CapAt(grown, mss, rmt)
  }

  // After a fast retransmission.
  function OnFast(c: Cong, mss: u32, inflight: u32, resent: u32): Cong {
    var ssthresh := Max(inflight / 2, THRESH_MIN);
    var cwnd := Add(ssthresh, resent);
    Cong(cwnd, WrapMul(cwnd, mss), ssthresh)
  }

  // After a timeout; `window` is the window this flush used.
  function OnTimeout(c: Cong, mss: u32, window: u32): Cong {
    Cong(1, mss, Max(window / 2, THRESH_MIN))
  }

  // End of `ikcp_flush`.
  function Settle(c: Cong, mss: u32, inflight: u32, resent: u32, window: u32, fast: bool, lost: bool): Cong {
    var a := if fast then OnFast(c, mss, inflight, resent) else c;
    var b := if lost then OnTimeout(a, mss, window) else a;
    if b.cwnd < 1 then Cong(1, mss, b.ssthresh) else b
  }

  const START := Cong(0, 0, THRESH_INIT)

  ghost predicate Near(c: Cong, mss: u32) {
    c.cwnd * mss - mss < c.incr as int < c.cwnd * mss + mss
  }

  // `incr` is `cwnd * mss` to within one segment, `ssthresh` at least 2, and nothing exceeds 16 bits.
  ghost predicate CongInv(c: Cong, mss: u32) {
    && 26 <= mss <= 65511
    && 2 <= c.ssthresh <= 32767
    && c.cwnd <= 65535
    && Near(c, mss)
  }

  lemma StartInv(mss: u32)
    requires 26 <= mss <= 65511
    ensures CongInv(START, mss)
  {
  }

  // ---- nonlinear steps ----

  lemma MulBound(a: int, m: int)
    requires 0 <= a <= 65537 && 0 <= m <= 65511
    ensures 0 <= a * m <= 4293394407
  {
    MulMono(a, 65537, m);
    MulMono(0, a, m);
    MulMono(m, 65511, 65537);
  }

  // What congestion avoidance adds to the byte counter, over unbounded integers.
  function Gain(incr: int, mss: int): int
    requires incr > 0
  {
    mss * mss / incr + mss / 16
  }

  lemma GainBound(w: int, i: int, m: int)
    requires m > 0 && 2 <= w && (w - 1) * m < i < (w + 1) * m
    ensures i > m && 0 <= Gain(i, m) && i + Gain(i, m) <= (w + 2) * m
  {
    MulMono(1, w - 1, m);
    SquareOver(m, i);
    assert (w + 2) * m == (w + 1) * m + m;
    if i < 2 * m {
      MulMono(4, w + 2, m);
    } else {
      SquareOverDouble(m, i);
    }
  }

  lemma RoundUp(w: int, n: int, m: int)
    requires m > 0 && (w + 1) * m <= n <= (w + 2) * m
    ensures w + 1 <= Ceil(n, m) <= w + 2
    ensures Ceil(n, m) * m - m < n < Ceil(n, m) * m + m
  {
    CeilMul(n, m, Ceil(n, m));
    CeilAtMost(n, m, w + 2);
    CeilAtLeast(n, m, w + 1);
  }

  lemma CreepNoWrap(c: Cong, mss: u32)
    requires 26 <= mss <= 65511 && c.cwnd < 65535 && mss < c.incr
    requires c.incr + Gain(c.incr, mss) <= (c.cwnd + 2) * mss && 0 <= Gain(c.incr, mss)
    ensures var d, incr: int := Creep(c, mss), c.incr + Gain(c.incr, mss);
            && d.incr == incr
            && d.cwnd as int == (if (c.cwnd + 1) * mss <= incr then Ceil(incr, mss) else c.cwnd)
            && d.ssthresh == c.ssthresh
  {
    var incr: int := c.incr + Gain(c.incr, mss);
    MulBound(mss, mss);
    MulBound(c.cwnd + 1, mss);
    MulBound(c.cwnd + 2, mss);
    WrapSmall(mss * mss);
    WrapSmall((c.cwnd + 1) * mss);
    WrapSmall(incr);
    WrapSmall(incr + mss - 1);
  }

  // In congestion avoidance no product or sum wraps: the counter grows by mss*mss/incr + mss/16,
  // by less than two segments, and stays within a segment of cwnd * mss.
  lemma CreepExact(c: Cong, mss: u32)
    requires CongInv(c, mss) && c.ssthresh <= c.cwnd < 65535
    ensures mss < c.incr
    ensures Creep(c, mss).incr == c.incr + Gain(c.incr, mss)
    ensures Creep(c, mss).cwnd as int ==
              if (c.cwnd + 1) * mss <= c.incr + Gain(c.incr, mss) then Ceil(c.incr + Gain(c.incr, mss), mss) else c.cwnd
    ensures Creep(c, mss).ssthresh == c.ssthresh
    ensures c.cwnd <= Creep(c, mss).cwnd <= c.cwnd + 2
    ensures Near(Creep(c, mss), mss)
  {
    var w: int, m: int := c.cwnd, mss;
    assert (w - 1) * m == w * m - m && (w + 1) * m == w * m + m;
    GainBound(w, c.incr, m);
    CreepNoWrap(c, mss);
    var n := c.incr + Gain(c.incr, m);
    if (w + 1) * m <= n { RoundUp(w, n, m); }
  }

  lemma SlowStartKeeps(c: Cong, mss: u32)
    requires CongInv(c, mss) && c.cwnd < 65535
    ensures CongInv(Cong(Add(c.cwnd, 1), Add(c.incr, mss), c.ssthresh), mss)
    ensures Add(c.cwnd, 1) == c.cwnd + 1 && Add(c.incr, mss) == c.incr + mss
  {
    MulBound(c.cwnd + 1, mss);
    assert (c.cwnd + 1) * mss == c.cwnd * mss + mss;
  }

  lemma ExactNear(w: u32, t: u32, mss: u32)
    requires 26 <= mss <= 65511 && w <= 65535 && 2 <= t <= 32767
    ensures CongInv(Cong(w, WrapMul(w, mss), t), mss)
  {
    MulBound(w, mss);
    WrapSmall(w * mss);
  }

  lemma CapKeeps(c: Cong, mss: u32, rmt: u16)
    requires 26 <= mss <= 65511 && 2 <= c.ssthresh <= 32767 && Near(c, mss)
    ensures CongInv(CapAt(c, mss, rmt), mss)
    ensures CapAt(c, mss, rmt).cwnd == Min(c.cwnd, rmt)
  {
    ExactNear(rmt, c.ssthresh, mss);
  }

  // One `ikcp_input` keeps the invariant and raises the window by at most 2.
  lemma GrowKeeps(c: Cong, mss: u32, rmt: u16)
    requires CongInv(c, mss)
    ensures CongInv(Grow(c, mss, rmt), mss)
    ensures Grow(c, mss, rmt).cwnd <= c.cwnd + 2
    ensures Grow(c, mss, rmt).ssthresh == c.ssthresh
    ensures Grow(c, mss, rmt).cwnd >= c.cwnd
  {
    if c.cwnd < rmt {
      if c.cwnd < c.ssthresh {
        SlowStartKeeps(c, mss);
        CapKeeps(Cong(Add(c.cwnd, 1), Add(c.incr, mss), c.ssthresh), mss, rmt);
      } else {
        CreepExact(c, mss);
        CapKeeps(Creep(c, mss), mss, rmt);
      }
    }
  }

  // A flush keeps the invariant and leaves a window of at least one segment.
  lemma SettleKeeps(c: Cong, mss: u32, inflight: u32, resent: u32, window: u32, fast: bool, lost: bool)
    requires CongInv(c, mss) && inflight <= 65535 && window <= 65535
    requires fast ==> resent <= 32767
    ensures CongInv(Settle(c, mss, inflight, resent, window, fast, lost), mss)
    ensures Settle(c, mss, inflight, resent, window, fast, lost).cwnd >= 1
  {
    if fast {
      ExactNear(Max(inflight / 2, 2) + resent, Max(inflight / 2, 2), mss);
    }
    ExactNear(1, Max(window / 2, 2), mss);
    ExactNear(1, c.ssthresh, mss);
  }

  // The window after a flush, in numbers: a timeout halves what the flush was allowed and starts from
  // one segment; a fast retransmission alone halves what is in flight and adds the skips it took;
  // the threshold is 2 at least and the window 1.
  ghost predicate Settled(c: Cong, d: Cong, mss: u32, inflight: u32, skips: u32, allowed: u32, fast: bool, lost: bool) {
    var half := if inflight < 4 then 2 else inflight / 2;
    var cwnd := if fast then Wrap(half + skips) else c.cwnd;
    if lost then d.cwnd == 1 && d.incr == mss && d.ssthresh == (if allowed < 4 then 2 else allowed / 2)
    else
      && d.ssthresh == (if fast then half else c.ssthresh)
      && d.cwnd == (if cwnd == 0 then 1 else cwnd)
      && d.incr == if cwnd == 0 then mss else if fast then Wrap(cwnd * mss) else c.incr
  }

  lemma SettleIs(c: Cong, mss: u32, inflight: u32, skips: u32, allowed: u32, fast: bool, lost: bool)
    ensures Settled(c, Settle(c, mss, inflight, skips, allowed, fast, lost), mss, inflight, skips, allowed, fast, lost)
  {
    AddWrap(Max(inflight / 2, 2), skips);
  }

  // The window after acknowledgements, in numbers: one segment more below the threshold; from there
  // on the byte counter grows and the window follows it, up to the peer's window.
  lemma GrowIs(c: Cong, mss: u32, rmt: u16)
    requires CongInv(c, mss)
    ensures var d := Grow(c, mss, rmt);
            && d.ssthresh == c.ssthresh
            && if c.cwnd >= rmt then d == c
               else if c.cwnd < c.ssthresh then d.cwnd == c.cwnd + 1 && d.incr == c.incr + mss
               else
                 && c.incr > 0
                 && var incr: int := c.incr + (mss * mss / c.incr + mss / 16);
                    var cwnd: int := if (c.cwnd + 1) * mss <= incr then (incr + mss - 1) / mss else c.cwnd;
                    && d.cwnd as int == (if cwnd > rmt as int then rmt as int else cwnd)
                    && d.incr as int == (if cwnd > rmt as int then rmt * mss else incr)
  {
    if c.cwnd < rmt {
      if c.cwnd < c.ssthresh {
        SlowStartKeeps(c, mss);
      } else {
        CreepExact(c, mss);
        MulBound(rmt, mss);
        WrapSmall(rmt * mss);
      }
    }
  }
}
