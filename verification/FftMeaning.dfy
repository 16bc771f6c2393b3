/**
 What the FFT computes, in plain arithmetic: every butterfly is the complex product rounded
 down, and an impulse comes out as the twiddle table itself.
 */
module FftMeaning {
  import opened Fixed
  import opened FftSpec
  import opened FftStage
  import opened FftTheorems

  // ----- one butterfly

  // Cells a and b hold the sum and the difference of x's cell a and of the product of x's
  // cell b with wr + i * wi, which is off by the rounding of two shifted products: less than
  // one unit either way in the real part, less than two units down in the imaginary one.
  ghost predicate Butterfly(x: Sig, y: Sig, a: int, b: int, wr: int, wi: int)
    requires 0 <= a < |x.re| == |y.re| && 0 <= b < |x.re| && |x.im| == |y.im| == |x.re|
  {
    var dr, di := y.re[a] - x.re[a], y.im[a] - x.im[a];
    && -0x1_0000 < 0x1_0000 * dr - (wr * x.re[b] - wi * x.im[b]) < 0x1_0000
    && -0x2_0000 < 0x1_0000 * di - (wr * x.im[b] + wi * x.re[b]) <= 0
    && y.re[b] == x.re[a] - dr && y.im[b] == x.im[a] - di
  }

  lemma ShiftsRound(p: int, q: int)
    ensures -0x1_0000 < 0x1_0000 * (Shr16(p) - Shr16(q)) - (p - q) < 0x1_0000
    ensures -0x2_0000 < 0x1_0000 * (Shr16(p) + Shr16(q)) - (p + q) <= 0
  {
  }

  lemma FlyIsButterfly(x: Sig, y: Sig, a: int, b: int, wr: int, wi: int, n: nat)
    requires Sized(x, n) && Sized(y, n) && FlyAt(x, y, a, b, wr, wi, true)
    ensures Butterfly(x, y, a, b, wr, wi)
  {
    hide Shr16;
    ShiftsRound(wr * x.re[b], wi * x.im[b]);
    ShiftsRound(wr * x.im[b], wi * x.re[b]);
  }

  lemma TwiddleFits(t: nat, logn: nat, k: nat)
    requires 1 <= k <= logn && t < Pow2(k - 1)
    ensures 2 * (t * Pow2(logn - k)) + 1 < Pow2(logn)
  {
    hide Pow2;
    var half, step := Pow2(k - 1), Pow2(logn - k);
    MulMonotone(t + 1, half, step);
    assert (t + 1) * step == t * step + step;
    Pow2Add(k - 1, logn - k);
    DoublePow2(logn);
  }

  lemma DoublePow2(k: nat)
    requires k >= 1
    ensures Pow2(k) == 2 * Pow2(k - 1)
  {
  }

  // Stage k, in the indices of the loops: butterfly t of block p pairs p * 2^k + t with the
  // cell 2^(k-1) above it and multiplies by entry t * 2^(logn-k) of the table.
  lemma StageRounds(x: Sig, tw: seq<int>, logn: nat, k: nat, p: nat, t: nat)
    requires Sized(x, Pow2(logn)) && |tw| == Pow2(logn) && 1 <= k <= logn && p < Pow2(logn - k) && t < Pow2(k - 1)
    ensures var y, a, w := Stage(x, tw, logn, k, true), p * Pow2(k) + t, 2 * (t * Pow2(logn - k));
            && Sized(y, Pow2(logn)) && 0 <= a && a + Pow2(k - 1) < Pow2(logn) && 0 <= w && w + 1 < |tw|
            && Butterfly(x, y, a, a + Pow2(k - 1), tw[w], tw[w + 1])
  {
    hide Stage, Pow2, Butterfly, FlyAt;
    var y, half, step := Stage(x, tw, logn, k, true), Pow2(k - 1), Pow2(logn - k);
    StageIsButterflies(x, tw, logn, k, true);
    TwiddleFits(t, logn, k);
    MulNonneg(t, step);
    DoublePow2(k);
    assert StageFly(x, y, tw, half, step, p, t, true);
    assert BlockStart(p, half) == p * Pow2(k);
    FlyCells(x, y, BlockStart(p, half) + t, half, TwRe(tw, t, step), TwIm(tw, t, step), Pow2(logn));
  }

  lemma FlyCells(x: Sig, y: Sig, a: nat, half: nat, wr: int, wi: int, n: nat)
    requires Sized(x, n) && Sized(y, n) && FlyAt(x, y, a, a + half, wr, wi, true)
    ensures a + half < n && Butterfly(x, y, a, a + half, wr, wi)
  {
    hide TwistRe, TwistIm, W, Butterfly;
    FlyIsButterfly(x, y, a, a + half, wr, wi, n);
  }

  // ----- bit reversal

  function Bit(x: nat, i: nat): nat { x / Pow2(i) % 2 }

  // Bit i of the reversed index is bit b - 1 - i of the index.
  lemma {:induction false} RevBits(x: nat, b: nat, i: nat)
    requires i < b
    ensures Bit(Rev(x, b), i) == Bit(x, b - 1 - i)
  {
    hide Pow2, Bit;
    RevInRange(x / 2, b - 1);
    var r, e := Rev(x / 2, b - 1), x % 2;
    if i == b - 1 {
      TopBit(r, e, b - 1);
      BitZero(x);
    } else {
      RevBits(x / 2, b - 1, i);
      LowBit(r, e, b - 1, i);
      BitUp(x, b - 2 - i);
    }
  }

  lemma BitZero(x: nat)
    ensures Bit(x, 0) == x % 2
  {
  }

  lemma BitUp(x: nat, i: nat)
    ensures Bit(x, i + 1) == Bit(x / 2, i)
  {
    hide Pow2;
    DoublePow2(i + 1);
    DivTwice(x, Pow2(i));
  }

  lemma PowZero()
    ensures Pow2(0) == 1
  {
  }

  lemma TopBit(r: nat, e: nat, b: nat)
    requires r < Pow2(b) && e < 2
    ensures Bit(r + (if e == 1 then Pow2(b) else 0), b) == e
  {
    hide Pow2;
    QuotientIs(r + (if e == 1 then Pow2(b) else 0), Pow2(b), e, r);
  }

  // Adding a higher power of two does not change bit i.
  lemma LowBit(r: nat, e: nat, b: nat, i: nat)
    requires i < b && e < 2
    ensures Bit(r + (if e == 1 then Pow2(b) else 0), i) == Bit(r, i)
  {
    hide Pow2;
    if e == 1 {
      var d, h := Pow2(i), Pow2(b - i - 1);
      Pow2Add(b - i, i);
      DoublePow2(b - i);
      AddEvenMultiple(r, h, d, Pow2(b));
    }
  }

  lemma AddEvenMultiple(r: nat, h: nat, d: nat, m: nat)
    requires d > 0 && m == (2 * h) * d
    ensures (r + m) / d % 2 == r / d % 2
  {
    var q := r / d;
    AddMultiple(r, 2 * h, d, m);
    assert (q + 2 * h) % 2 == q % 2;
  }

  lemma AddMultiple(r: nat, k: nat, d: nat, m: nat)
    requires d > 0 && m == k * d
    ensures (r + m) / d == r / d + k
  {
    var q, s := r / d, r % d;
    Remainder(r, d);
    Distribute(q, k, d);
    QuotientIs(r + m, d, q + k, s);
  }

  lemma Remainder(r: nat, d: nat)
    requires d > 0
    ensures r == r / d * d + r % d && r % d < d
  {
  }

  lemma Distribute(q: int, k: int, d: int)
    ensures (q + k) * d == q * d + k * d
  {
  }

  lemma DivTwice(x: nat, p: nat)
    requires p > 0
    ensures x / (2 * p) == x / 2 / p
  {
    var h := x / 2;
    var q, s := h / p, h % p;
    Remainder(h, p);
    Distribute(q, q, p);
    assert q * (2 * p) == q * p + q * p;
    QuotientIs(x, 2 * p, q, 2 * s + x % 2);
  }

  // ----- an impulse

  lemma {:induction false} RevOfZero(b: nat)
    ensures Rev(0, b) == 0
  {
    if b > 0 {
      RevOfZero(b - 1);
    }
  }

  // Only index 2^(b-1) is sent to 1.
  lemma RevOfOne(b: nat, k: nat)
    requires b >= 1 && k < Pow2(b)
    ensures Rev(k, b) == 1 <==> k == Pow2(b - 1)
  {
    RevOfZero(b - 1);
    assert 1 < Pow2(b);
    assert Rev(1, b) == Pow2(b - 1);
    RevInvolution(1, b);
    RevInvolution(k, b);
  }

  // c holds v from lo up to hi and 0 elsewhere.
  predicate Lit(c: seq<int>, lo: int, hi: int, v: int) {
    forall i | 0 <= i < |c| :: c[i] == if lo <= i < hi then v else 0
  }

  predicate BothLit(x: Sig, lo: int, hi: int, vr: int, vi: int) { Lit(x.re, lo, hi, vr) && Lit(x.im, lo, hi, vi) }

  lemma ReversedImpulse(x: Sig, logn: nat, vr: int, vi: int)
    requires logn >= 1 && Sized(x, Pow2(logn)) && BothLit(x, 1, 2, vr, vi)
    ensures var y, h := BitReverse(x, logn), Pow2(logn - 1);
            Sized(y, Pow2(logn)) && BothLit(y, h, h + 1, vr, vi)
  {
    hide SwapPass, Rev, Pow2;
    SwapPassIsBitReversal(x.re, logn);
    SwapPassIsBitReversal(x.im, logn);
    forall k | 0 <= k < Pow2(logn) ensures Rev(k, logn) == 1 <==> k == Pow2(logn - 1) {
      RevOfOne(logn, k);
    }
  }

  // Where the two cells of a butterfly are relative to block b0.
  lemma Placement(p: nat, b0: nat, t: nat, half: nat)
    requires t < half
    ensures var a, lo := BlockStart(p, half) + t, BlockStart(b0, half);
            && (lo <= a < lo + half <==> p == b0) && !(lo <= a + half < lo + half)
            && (lo <= a < lo + 2 * half <==> p == b0) && (lo <= a + half < lo + 2 * half <==> p == b0)
  {
    if p < b0 {
      BlocksApart(p, b0, half);
    } else if b0 < p {
      BlocksApart(b0, p, half);
    }
  }

  lemma ZeroTwist(wr: int, wi: int)
    ensures TwistRe(wr, wi, 0, 0, true) == 0 && TwistIm(wr, wi, 0, 0, true) == 0
  {
  }

  lemma SpreadCell(x: Sig, y: Sig, logn: nat, tw: seq<int>, half: nat, step: nat, b0: nat, vr: int, vi: int, i: nat)
    requires Sized(x, Pow2(logn)) && Sized(y, Pow2(logn)) && half > 0 && BlockStart(step, half) == Pow2(logn)
    requires BlocksDone(x, y, tw, half, step, step, true, Pow2(logn)) && i < Pow2(logn)
    requires var lo := BlockStart(b0, half); BothLit(x, lo, lo + half, vr, vi)
    ensures var lo := BlockStart(b0, half);
            && y.re[i] == (if lo <= i < lo + 2 * half then vr else 0)
            && y.im[i] == (if lo <= i < lo + 2 * half then vi else 0)
  {
    hide BlockStart, TwistRe, TwistIm, TwRe, TwIm, Pow2;
    var p, t, upper := EveryIndexInOneButterfly(i, half, step);
    assert StageFly(x, y, tw, half, step, p, t, true);
    Placement(p, b0, t, half);
    ZeroTwist(TwRe(tw, t, step), TwIm(tw, t, step));
    var a := BlockStart(p, half) + t;
    assert x.re[a + half] == 0 && x.im[a + half] == 0;
  }

  // A stage below the last doubles the lit run.
  lemma SpreadStage(x: Sig, tw: seq<int>, logn: nat, k: nat, vr: int, vi: int)
    requires 1 <= k < logn && Sized(x, Pow2(logn))
    requires var h := Pow2(logn - 1); BothLit(x, h, h + Pow2(k - 1), vr, vi)
    ensures var y, h := Stage(x, tw, logn, k, true), Pow2(logn - 1);
            Sized(y, Pow2(logn)) && BothLit(y, h, h + Pow2(k), vr, vi)
  {
    hide Stage, Pow2, BlocksDone, BlockStart;
    var y, half, step := Stage(x, tw, logn, k, true), Pow2(k - 1), Pow2(logn - k);
    var b0 := Pow2(logn - 1 - k);
    StageIsButterflies(x, tw, logn, k, true);
    MiddleBlock(logn, k);
    DoublePow2(k);
    forall i | 0 <= i < Pow2(logn)
      ensures y.re[i] == (if BlockStart(b0, half) <= i < BlockStart(b0, half) + 2 * half then vr else 0)
      ensures y.im[i] == (if BlockStart(b0, half) <= i < BlockStart(b0, half) + 2 * half then vi else 0)
    {
      SpreadCell(x, y, logn, tw, half, step, b0, vr, vi, i);
    }
  }

  lemma MiddleBlock(logn: nat, k: nat)
    requires 1 <= k < logn
    ensures BlockStart(Pow2(logn - 1 - k), Pow2(k - 1)) == Pow2(logn - 1)
  {
    hide Pow2;
    Pow2Add(logn - 1 - k, k);
    DoublePow2(k);
  }

  lemma {:induction false} SpreadStages(x: Sig, tw: seq<int>, logn: nat, k: nat, vr: int, vi: int)
    requires logn >= 1 && k < logn && Sized(x, Pow2(logn))
    requires var h := Pow2(logn - 1); BothLit(x, h, h + 1, vr, vi)
    ensures var y, h := Stages(x, tw, logn, k, true), Pow2(logn - 1);
            Sized(y, Pow2(logn)) && BothLit(y, h, h + Pow2(k), vr, vi)
  {
    hide Stage, Pow2, BothLit;
    if k == 0 {
      PowZero();
    } else {
      SpreadStages(x, tw, logn, k - 1, vr, vi);
      SpreadStage(Stages(x, tw, logn, k - 1, true), tw, logn, k, vr, vi);
    }
  }

  lemma UnitShift(w: int, p: int)
    ensures Shr16(w * (0x1_0000 * p)) == w * p
  {
    assert w * (0x1_0000 * p) == 0x1_0000 * (w * p);
  }

  // The last stage turns the lit upper half into products with the table.
  lemma LastStage(x: Sig, tw: seq<int>, logn: nat, p: int, q: int, k: nat)
    requires logn >= 1 && Sized(x, Pow2(logn)) && |tw| == Pow2(logn) && k < Pow2(logn - 1)
    requires BothLit(x, Pow2(logn - 1), Pow2(logn), 0x1_0000 * p, 0x1_0000 * q)
    ensures var y, h := Stage(x, tw, logn, logn, true), Pow2(logn - 1);
            && Sized(y, Pow2(logn)) && k + h < Pow2(logn) && 2 * k + 1 < |tw|
            && y.re[k] == p * tw[2 * k] - q * tw[2 * k + 1] && y.im[k] == p * tw[2 * k + 1] + q * tw[2 * k]
            && y.re[k + h] == -y.re[k] && y.im[k + h] == -y.im[k]
  {
    hide Stage, Pow2, Shr16;
    var y, h := Stage(x, tw, logn, logn, true), Pow2(logn - 1);
    DoublePow2(logn);
    PowZero();
    StageIsButterflies(x, tw, logn, logn, true);
    assert StageFly(x, y, tw, h, 1, 0, k, true);
    assert BlockStart(0, h) == 0 && k * 1 == k;
    var wr, wi := tw[2 * k], tw[2 * k + 1];
    assert TwRe(tw, k, 1) == wr && TwIm(tw, k, 1) == wi;
    UnitShift(wr, p);
    UnitShift(wr, q);
    UnitShift(wi, p);
    UnitShift(wi, q);
  }

  // The whole transform of an impulse of 65536 * (p + i * q) at index 1: entry k is
  // (p + i * q) times entry k of the twiddle table, and the upper half is its negative.
  // For every size and every table.
  lemma TransformOfImpulse(x: Sig, tw: seq<int>, logn: nat, p: int, q: int, k: nat)
    requires logn >= 1 && Sized(x, Pow2(logn)) && |tw| == Pow2(logn) && k < Pow2(logn - 1)
    requires BothLit(x, 1, 2, 0x1_0000 * p, 0x1_0000 * q)
    ensures var y, h := Transform(x, tw, logn, true), Pow2(logn - 1);
            && Sized(y, Pow2(logn)) && k + h < Pow2(logn) && 2 * k + 1 < |tw|
            && y.re[k] == p * tw[2 * k] - q * tw[2 * k + 1] && y.im[k] == p * tw[2 * k + 1] + q * tw[2 * k]
            && y.re[k + h] == -y.re[k] && y.im[k + h] == -y.im[k]
  {
    hide Stage, Pow2, BitReverse, BothLit;
    ReversedImpulse(x, logn, 0x1_0000 * p, 0x1_0000 * q);
    SpreadStages(BitReverse(x, logn), tw, logn, logn - 1, 0x1_0000 * p, 0x1_0000 * q);
    DoublePow2(logn);
    LastStage(Stages(BitReverse(x, logn), tw, logn, logn - 1, true), tw, logn, p, q, k);
  }

  // Both programs, on 64-bit words: the kernel and the reference leave the table itself for a
  // unit impulse whenever the bound of NoOverflow admits it.
  lemma ProgramsOnImpulse(x: Sig, tw: seq<int>, logn: nat, k: nat)
    requires logn >= 1 && Sized(x, Pow2(logn)) && |tw| == Pow2(logn) && k < Pow2(logn - 1)
    requires UnitTwiddles(tw) && UnitFirst(tw) && 0x1_0000 * Grown(logn, 0x1_0000) < TWO63
    requires BothLit(x, 1, 2, 0x1_0000, 0)
    ensures var y := PeeledTransform(x, tw, logn, false);
            && y == Transform(x, tw, logn, false) && Sized(y, Pow2(logn)) && 2 * k + 1 < |tw|
            && y.re[k] == tw[2 * k] && y.im[k] == tw[2 * k + 1]
  {
    hide Stages, PeeledStages, Pow2, BitReverse, Grown, StageFits, PlainFits, UnitTwiddles;
    assert Bounded(x, 0x1_0000);
    NoOverflow(x, tw, logn, 0x1_0000);
    TransformOfImpulse(x, tw, logn, 1, 0, k);
  }
}
