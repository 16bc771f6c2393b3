/**
 The optimised kernel's transform is the reference's, and neither overflows on bounded input.
 */
module FftTheorems {
  import opened Fixed
  import opened FftSpec
  import opened FftStage

  // ----- peeling the first stage

  predicate Near(x: int) { -0x8000_0000_0000 <= x < 0x8000_0000_0000 }

  // In i64 arithmetic (65536 * x) >> 16 gives x back exactly for x in [-2^47, 2^47).
  lemma PeelExactly(x: int)
    requires IsI64(x)
    ensures Shr16(ToI64(0x1_0000 * x)) == x <==> Near(x)
    ensures Near(Shr16(ToI64(0x1_0000 * x)))
  {
    var w := ToI64(0x1_0000 * x);
    assert Near(Shr16(w));
    if Near(x) {
      FitsI64(0x1_0000 * x);
    }
  }

  lemma UnitTwist(br: int, bi: int)
    requires IsI64(br) && IsI64(bi)
    ensures TwistRe(0x1_0000, 0, br, bi, false) == br <==> Near(br)
    ensures TwistIm(0x1_0000, 0, br, bi, false) == bi <==> Near(bi)
  {
    PeelExactly(br);
    PeelExactly(bi);
    ZeroTerm(br);
    ZeroTerm(bi);
    hide ToI64;
    FitsI64(Shr16(ToI64(0x1_0000 * br)));
    FitsI64(Shr16(ToI64(0x1_0000 * bi)));
  }

  lemma ZeroTerm(x: int)
    ensures Shr16(ToI64(0 * x)) == 0
  {
  }

  ghost predicate AllI64(x: Sig) {
    (forall i | 0 <= i < |x.re| :: IsI64(x.re[i])) && (forall i | 0 <= i < |x.im| :: IsI64(x.im[i]))
  }

  ghost predicate PairNear(x: Sig, p: nat) { Near(At(x.re, 2 * p + 1)) && Near(At(x.im, 2 * p + 1)) }

  lemma PlainFlyIsFly(x: Sig, p: nat)
    requires AllI64(x) && PairNear(x, p)
    ensures PlainFly(x, 2 * p, 2 * p + 1, false) == Fly(x, 2 * p, 2 * p + 1, 0x1_0000, 0, false)
  {
    hide TwistRe, TwistIm, ToI64, W;
    UnitTwist(At(x.re, 2 * p + 1), At(x.im, 2 * p + 1));
  }

  ghost predicate UnitFirst(tw: seq<int>) { |tw| >= 2 && tw[0] == 0x1_0000 && tw[1] == 0 }

  // One block of length two of the general stage.
  lemma PairBlock(x: Sig, tw: seq<int>, p: nat, step: nat, exact: bool)
    requires UnitFirst(tw)
    ensures Inner(x, tw, BlockStart(p, 1), 1, step, 1, exact) == Fly(x, 2 * p, 2 * p + 1, 0x1_0000, 0, exact)
  {
    hide Fly;
    assert BlockStart(p, 1) == 2 * p;
    assert Inner(x, tw, BlockStart(p, 1), 1, step, 0, exact) == x;
  }

  lemma {:induction false} PlainStageIsStage(x: Sig, tw: seq<int>, step: nat, q: nat, n: nat)
    requires Sized(x, n) && 2 * q <= n && UnitFirst(tw)
    requires forall p | 0 <= p < q :: PairNear(x, p)
    requires AllI64(x)
    ensures PlainStage(x, q, false) == Outer(x, tw, 1, step, q, false)
    ensures AllI64(Outer(x, tw, 1, step, q, false))
  {
    hide Fly, PlainFly, Inner;
    if q > 0 {
      PlainStageIsStage(x, tw, step, q - 1, n);
      var x' := Outer(x, tw, 1, step, q - 1, false);
      assert BlockStart(q - 1, 1) == 2 * (q - 1);
      OuterAt(x, tw, 1, step, q - 1, false, n);
      assert SameCell(x, x', 2 * (q - 1) + 1);
      assert PairNear(x, q - 1) && PairNear(x', q - 1);
      PlainFlyIsFly(x', q - 1);
      PairBlock(x', tw, q - 1, step, false);
      FlyI64(x', 2 * (q - 1), 2 * (q - 1) + 1, 0x1_0000, 0);
    }
  }

  lemma FlyI64(x: Sig, a: int, b: int, wr: int, wi: int)
    requires AllI64(x)
    ensures AllI64(Fly(x, a, b, wr, wi, false))
  {
    hide TwistRe, TwistIm;
  }

  lemma HalfOfPow2(logn: nat)
    requires logn >= 1
    ensures Pow2(logn) / 2 == Pow2(logn - 1) && 2 * Pow2(logn - 1) == Pow2(logn)
  {
  }

  lemma {:induction false} PeeledStagesAre(x: Sig, tw: seq<int>, logn: nat, k: nat)
    requires 1 <= k
    requires PlainStage(x, Pow2(logn) / 2, false) == Stage(x, tw, logn, 1, false)
    ensures PeeledStages(x, tw, logn, k, false) == Stages(x, tw, logn, k, false)
  {
    hide Stage, PlainStage;
    if k > 1 {
      PeeledStagesAre(x, tw, logn, k - 1);
    } else {
      assert Stages(x, tw, logn, 0, false) == x;
    }
  }

  // ----- and only then is the peeled stage the same

  // The sums that the peeled stage leaves in the lower cell of pair p.
  ghost predicate PlainAt(x: Sig, y: Sig, p: nat) {
    && 2 * p + 1 < |x.re| == |y.re| && 2 * p + 1 < |x.im| == |y.im|
    && y.re[2 * p] == ToI64(x.re[2 * p] + x.re[2 * p + 1])
    && y.im[2 * p] == ToI64(x.im[2 * p] + x.im[2 * p + 1])
  }

  lemma PlainFlyDoes(x: Sig, y: Sig, p: nat, n: nat)
    requires Sized(x, n) && 2 * p + 1 < n && y == PlainFly(x, 2 * p, 2 * p + 1, false)
    ensures PlainAt(x, y, p)
    ensures forall i | 0 <= i < n && i != 2 * p && i != 2 * p + 1 :: SameCell(x, y, i)
  {
    hide ToI64;
  }

  lemma PlainFrom(x: Sig, x': Sig, y: Sig, p: nat)
    requires SameCell(x, x', 2 * p) && SameCell(x, x', 2 * p + 1) && PlainAt(x', y, p)
    ensures PlainAt(x, y, p)
  {
    hide ToI64;
  }

  lemma {:induction false} PlainStageAt(x: Sig, q: nat, n: nat)
    requires Sized(x, n) && 2 * q <= n
    ensures forall p | 0 <= p < q :: PlainAt(x, PlainStage(x, q, false), p)
    ensures forall i | 2 * q <= i < n :: SameCell(x, PlainStage(x, q, false), i)
  {
    hide PlainFly, PlainAt;
    if q > 0 {
      PlainStageAt(x, q - 1, n);
      var x', y := PlainStage(x, q - 1, false), PlainStage(x, q, false);
      PlainFlyDoes(x', y, q - 1, n);
      assert SameCell(x, x', 2 * (q - 1)) && SameCell(x, x', 2 * (q - 1) + 1);
      PlainFrom(x, x', y, q - 1);
      forall p | 0 <= p < q - 1 ensures PlainAt(x, y, p) {
        assert PlainAt(x, x', p) && SameCell(x', y, 2 * p);
        PlainKept(x, x', y, p);
      }
      forall i | 2 * q <= i < n ensures SameCell(x, y, i) {
        SameTrans(x, x', y, i);
      }
    }
  }

  lemma PlainKept(x: Sig, y: Sig, y': Sig, p: nat)
    requires PlainAt(x, y, p) && SameCell(y, y', 2 * p)
    ensures PlainAt(x, y', p)
  {
    hide ToI64;
  }

  lemma SameSumSameTerm(u: int, s: int, t: int)
    requires IsI64(s) && IsI64(t) && ToI64(u + s) == ToI64(u + t)
    ensures s == t
  {
  }

  // The peeled stage computes what the general one does exactly when every upper input of a
  // butterfly is in [-2^47, 2^47).
  lemma PeelIffNear(x: Sig, tw: seq<int>, logn: nat)
    requires logn >= 1 && Sized(x, Pow2(logn)) && UnitFirst(tw) && AllI64(x)
    ensures PlainStage(x, Pow2(logn) / 2, false) == Stage(x, tw, logn, 1, false)
            <==> forall p | 0 <= p < Pow2(logn - 1) :: PairNear(x, p)
  {
    hide PlainStage, Outer;
    HalfOfPow2(logn);
    var q, n := Pow2(logn - 1), Pow2(logn);
    if forall p | 0 <= p < q :: PairNear(x, p) {
      PlainStageIsStage(x, tw, q, q, n);
    }
    if PlainStage(x, q, false) == Stage(x, tw, logn, 1, false) {
      forall p | 0 <= p < q ensures PairNear(x, p) {
        PeelNeedsNear(x, tw, logn, p);
      }
    }
  }

  lemma PeelNeedsNear(x: Sig, tw: seq<int>, logn: nat, p: nat)
    requires logn >= 1 && Sized(x, Pow2(logn)) && UnitFirst(tw) && AllI64(x) && p < Pow2(logn - 1)
    requires PlainStage(x, Pow2(logn - 1), false) == Stage(x, tw, logn, 1, false)
    ensures PairNear(x, p)
  {
    hide PlainStage, Outer, TwistRe, TwistIm;
    HalfOfPow2(logn);
    var q, n := Pow2(logn - 1), Pow2(logn);
    var y := Stage(x, tw, logn, 1, false);
    PlainStageAt(x, q, n);
    assert PlainAt(x, y, p);
    StageIsButterflies(x, tw, logn, 1, false);
    assert StageFly(x, y, tw, 1, q, p, 0, false);
    assert BlockStart(p, 1) == 2 * p;
    var br, bi := x.re[2 * p + 1], x.im[2 * p + 1];
    UnitTwist(br, bi);
    TwistI64(0x1_0000, 0, br, bi);
    SameSumSameTerm(x.re[2 * p], br, TwistRe(0x1_0000, 0, br, bi, false));
    SameSumSameTerm(x.im[2 * p], bi, TwistIm(0x1_0000, 0, br, bi, false));
  }

  lemma TwistI64(wr: int, wi: int, br: int, bi: int)
    ensures IsI64(TwistRe(wr, wi, br, bi, false)) && IsI64(TwistIm(wr, wi, br, bi, false))
  {
  }

  // ----- the kernel and the reference

  // The upper half of a buffer of 2^logn words is in [-2^47, 2^47).
  ghost predicate UpperNear(x: Sig, logn: nat)
    requires logn >= 1 && Sized(x, Pow2(logn))
  {
    forall i | Pow2(logn - 1) <= i < Pow2(logn) :: Near(x.re[i]) && Near(x.im[i])
  }

  // The partner of pair p comes from the upper half of the input.
  lemma OddFromUpper(x: Sig, logn: nat, p: nat)
    requires logn >= 1 && Sized(x, Pow2(logn)) && p < Pow2(logn - 1)
    ensures var y, i := BitReverse(x, logn), Rev(p, logn - 1) + Pow2(logn - 1);
            && Sized(y, Pow2(logn)) && i < Pow2(logn) && 2 * p + 1 < Pow2(logn)
            && y.re[2 * p + 1] == x.re[i] && y.im[2 * p + 1] == x.im[i]
  {
    hide SwapPass;
    RevInRange(p, logn - 1);
    SwapPassIsBitReversal(x.re, logn);
    SwapPassIsBitReversal(x.im, logn);
    assert (2 * p + 1) / 2 == p && Rev(2 * p + 1, logn) == Rev(p, logn - 1) + Pow2(logn - 1);
  }

  // Every partner of the first stage is near exactly when the upper half of the input is.
  lemma PartnersAreUpper(x: Sig, logn: nat)
    requires logn >= 1 && Sized(x, Pow2(logn))
    ensures (forall p | 0 <= p < Pow2(logn - 1) :: PairNear(BitReverse(x, logn), p)) <==> UpperNear(x, logn)
  {
    hide BitReverse, Near, Rev;
    HalfOfPow2(logn);
    var y, half := BitReverse(x, logn), Pow2(logn - 1);
    if UpperNear(x, logn) {
      forall p | 0 <= p < half ensures PairNear(y, p) {
        OddFromUpper(x, logn, p);
      }
    }
    if forall p | 0 <= p < half :: PairNear(y, p) {
      forall i | half <= i < Pow2(logn) ensures Near(x.re[i]) && Near(x.im[i]) {
        var p := Rev(i - half, logn - 1);
        RevInRange(i - half, logn - 1);
        RevInvolution(i - half, logn - 1);
        OddFromUpper(x, logn, p);
        assert PairNear(y, p);
      }
    }
  }

  lemma BitReverseKeepsI64(x: Sig, logn: nat)
    requires Sized(x, Pow2(logn)) && AllI64(x)
    ensures Sized(BitReverse(x, logn), Pow2(logn)) && AllI64(BitReverse(x, logn))
  {
    hide SwapPass, Rev;
    SwapPassIsBitReversal(x.re, logn);
    SwapPassIsBitReversal(x.im, logn);
  }

  // The peeled first stage of the kernel is the reference's first stage exactly when the
  // upper half of the kernel's input is in [-2^47, 2^47).
  lemma PeelIffUpperNear(x: Sig, tw: seq<int>, logn: nat)
    requires logn >= 1 && Sized(x, Pow2(logn)) && UnitFirst(tw) && AllI64(x)
    ensures var y := BitReverse(x, logn);
            PlainStage(y, Pow2(logn) / 2, false) == Stage(y, tw, logn, 1, false) <==> UpperNear(x, logn)
  {
    hide PlainStage, Stage, BitReverse, PairNear, AllI64, UpperNear;
    BitReverseKeepsI64(x, logn);
    PeelIffNear(BitReverse(x, logn), tw, logn);
    PartnersAreUpper(x, logn);
  }

  // For every size 2^logn, every twiddle table starting with (65536, 0) and every input whose
  // upper half is in [-2^47, 2^47), the kernel's transform is the reference's, bit for bit.
  lemma KernelIsReference(x: Sig, tw: seq<int>, logn: nat)
    requires logn >= 1 && Sized(x, Pow2(logn)) && UnitFirst(tw) && AllI64(x) && UpperNear(x, logn)
    ensures PeeledTransform(x, tw, logn, false) == Transform(x, tw, logn, false)
    ensures forall s | 1 <= s <= logn ::
              PeeledStages(BitReverse(x, logn), tw, logn, s, false) == Stages(BitReverse(x, logn), tw, logn, s, false)
  {
    hide PlainStage, Stage, PeeledStages, Stages, BitReverse, UpperNear, AllI64;
    var y := BitReverse(x, logn);
    PeelIffUpperNear(x, tw, logn);
    forall s | 1 <= s <= logn ensures PeeledStages(y, tw, logn, s, false) == Stages(y, tw, logn, s, false) {
      PeeledStagesAre(y, tw, logn, s);
    }
  }

  // ----- growth

  function Pow3(k: nat): (p: nat)
    ensures p > 0
  {
    if k == 0 then 1 else 3 * Pow3(k - 1)
  }

  // The bound after k stages on inputs bounded by m.
  function Grown(k: nat, m: nat): nat {
    MulNonneg(Pow3(k), m);
    Pow3(k) * m
  }

  ghost predicate Bounded(x: Sig, m: nat) {
    (forall i | 0 <= i < |x.re| :: Abs(x.re[i]) <= m) && (forall i | 0 <= i < |x.im| :: Abs(x.im[i]) <= m)
  }

  // What cos and sin in Q16.16 satisfy.
  ghost predicate UnitTwiddles(tw: seq<int>) { forall i | 0 <= i < |tw| :: Abs(tw[i]) <= 0x1_0000 }

  lemma ProductBound(w: int, b: int, m: nat)
    requires Abs(w) <= 0x1_0000 && Abs(b) <= m
    ensures Abs(w * b) <= 0x1_0000 * m && Abs(Shr16(w * b)) <= m
  {
    AbsProduct(w, b, 0x1_0000, m);
    var p := w * b;
  }

  lemma ShiftedFits(w: int, b: int, m: nat)
    requires Abs(w) <= 0x1_0000 && Abs(b) <= m && 0x1_0000 * m < TWO63
    ensures Shr16(ToI64(w * b)) == Shr16(w * b) && Abs(Shr16(w * b)) <= m
  {
    ProductBound(w, b, m);
    FitsI64(w * b);
  }

  lemma TwistBound(wr: int, wi: int, br: int, bi: int, m: nat)
    requires Abs(wr) <= 0x1_0000 && Abs(wi) <= 0x1_0000 && Abs(br) <= m && Abs(bi) <= m && 0x1_0000 * m < TWO63
    ensures TwistRe(wr, wi, br, bi, false) == TwistRe(wr, wi, br, bi, true)
    ensures TwistIm(wr, wi, br, bi, false) == TwistIm(wr, wi, br, bi, true)
    ensures Abs(TwistRe(wr, wi, br, bi, true)) <= 2 * m && Abs(TwistIm(wr, wi, br, bi, true)) <= 2 * m
  {
    hide ToI64, Shr16;
    ShiftedFits(wr, br, m);
    ShiftedFits(wi, bi, m);
    ShiftedFits(wr, bi, m);
    ShiftedFits(wi, br, m);
    FitsI64(Shr16(wr * br) - Shr16(wi * bi));
    FitsI64(Shr16(wr * bi) + Shr16(wi * br));
  }

  // One butterfly in both arithmetics.
  lemma FlyBound(x: Sig, y: Sig, z: Sig, a: int, b: int, wr: int, wi: int, m: nat)
    requires Bounded(x, m) && Abs(wr) <= 0x1_0000 && Abs(wi) <= 0x1_0000 && 0x1_0000 * m < TWO63
    requires FlyAt(x, y, a, b, wr, wi, false) && FlyAt(x, z, a, b, wr, wi, true)
    ensures SameCell(y, z, a) && SameCell(y, z, b)
    ensures Abs(z.re[a]) <= 3 * m && Abs(z.im[a]) <= 3 * m && Abs(z.re[b]) <= 3 * m && Abs(z.im[b]) <= 3 * m
  {
    hide ToI64, TwistRe, TwistIm;
    TwistBound(wr, wi, x.re[b], x.im[b], m);
    var tr, ti := TwistRe(wr, wi, x.re[b], x.im[b], true), TwistIm(wr, wi, x.re[b], x.im[b], true);
    FitsI64(x.re[a] + tr);
    FitsI64(x.re[a] - tr);
    FitsI64(x.im[a] + ti);
    FitsI64(x.im[a] - ti);
  }

  lemma TwiddleBound(tw: seq<int>, t: nat, step: nat)
    requires UnitTwiddles(tw)
    ensures Abs(TwRe(tw, t, step)) <= 0x1_0000 && Abs(TwIm(tw, t, step)) <= 0x1_0000
  {
  }

  lemma StageCellBound(x: Sig, tw: seq<int>, logn: nat, k: nat, m: nat, i: nat)
    requires Sized(x, Pow2(logn)) && 1 <= k <= logn && Bounded(x, m) && UnitTwiddles(tw) && 0x1_0000 * m < TWO63
    requires i < Pow2(logn)
    ensures SameCell(Stage(x, tw, logn, k, false), Stage(x, tw, logn, k, true), i)
    ensures Abs(Stage(x, tw, logn, k, true).re[i]) <= 3 * m && Abs(Stage(x, tw, logn, k, true).im[i]) <= 3 * m
  {
    hide Stage, FlyAt, TwRe, TwIm, BlockStart, Pow2, Bounded, UnitTwiddles;
    StageIsButterflies(x, tw, logn, k, false);
    StageIsButterflies(x, tw, logn, k, true);
    var half, q := Pow2(k - 1), Pow2(logn - k);
    var p, t, upper := EveryIndexInOneButterfly(i, half, q);
    var y, z := Stage(x, tw, logn, k, false), Stage(x, tw, logn, k, true);
    assert StageFly(x, y, tw, half, q, p, t, false) && StageFly(x, z, tw, half, q, p, t, true);
    TwiddleBound(tw, t, q);
    FlyBound(x, y, z, BlockStart(p, half) + t, BlockStart(p, half) + t + half, TwRe(tw, t, q), TwIm(tw, t, q), m);
  }

  lemma StageBound(x: Sig, tw: seq<int>, logn: nat, k: nat, m: nat)
    requires Sized(x, Pow2(logn)) && 1 <= k <= logn && Bounded(x, m) && UnitTwiddles(tw) && 0x1_0000 * m < TWO63
    ensures Stage(x, tw, logn, k, false) == Stage(x, tw, logn, k, true)
    ensures Bounded(Stage(x, tw, logn, k, true), 3 * m)
  {
    hide Outer, Pow2;
    var y, z := Stage(x, tw, logn, k, false), Stage(x, tw, logn, k, true);
    forall i | 0 <= i < Pow2(logn)
      ensures SameCell(y, z, i) && Abs(z.re[i]) <= 3 * m && Abs(z.im[i]) <= 3 * m
    {
      StageCellBound(x, tw, logn, k, m, i);
    }
    assert y.re == z.re && y.im == z.im;
  }

  lemma {:induction false} Pow3Monotone(j: nat, k: nat)
    requires j <= k
    ensures Pow3(j) <= Pow3(k)
  {
    if j < k {
      Pow3Monotone(j, k - 1);
    }
  }

  lemma Pow3Room(j: nat, k: nat, m: nat)
    requires j <= k && 0x1_0000 * Grown(k, m) < TWO63
    ensures 0x1_0000 * Grown(j, m) < TWO63
  {
    hide Pow3;
    Pow3Monotone(j, k);
    MulMonotone(Pow3(j), Pow3(k), m);
  }

  lemma {:induction false} StagesBound(x: Sig, tw: seq<int>, logn: nat, k: nat, m: nat)
    requires Sized(x, Pow2(logn)) && k <= logn && Bounded(x, m) && UnitTwiddles(tw)
    requires 0x1_0000 * Grown(logn, m) < TWO63
    ensures Stages(x, tw, logn, k, false) == Stages(x, tw, logn, k, true)
    ensures Bounded(Stages(x, tw, logn, k, true), Grown(k, m))
  {
    hide Stage, Pow2;
    if k > 0 {
      StagesBound(x, tw, logn, k - 1, m);
      Pow3Room(k - 1, logn, m);
      assert Grown(k, m) == 3 * Grown(k - 1, m);
      StageBound(Stages(x, tw, logn, k - 1, true), tw, logn, k, Grown(k - 1, m));
    }
  }

  lemma BitReverseKeepsBound(x: Sig, logn: nat, m: nat)
    requires Sized(x, Pow2(logn)) && Bounded(x, m)
    ensures Sized(BitReverse(x, logn), Pow2(logn)) && Bounded(BitReverse(x, logn), m)
  {
    hide SwapPass, Rev;
    SwapPassIsBitReversal(x.re, logn);
    SwapPassIsBitReversal(x.im, logn);
  }

  // ----- no operation wraps

  // The four products of a butterfly, the two differences of shifted products and the four
  // results all fit in 64 bits.
  ghost predicate FlyFits(x: Sig, a: int, b: int, wr: int, wi: int) {
    var br, bi, ur, ui := At(x.re, b), At(x.im, b), At(x.re, a), At(x.im, a);
    var tr, ti := Shr16(wr * br) - Shr16(wi * bi), Shr16(wr * bi) + Shr16(wi * br);
    && IsI64(wr * br) && IsI64(wi * bi) && IsI64(wr * bi) && IsI64(wi * br)
    && IsI64(tr) && IsI64(ti)
    && IsI64(ur + tr) && IsI64(ui + ti) && IsI64(ur - tr) && IsI64(ui - ti)
  }

  // The sums and differences of pair p of the peeled stage fit.
  ghost predicate PlainFits(x: Sig, p: nat) {
    var br, bi, ur, ui := At(x.re, 2 * p + 1), At(x.im, 2 * p + 1), At(x.re, 2 * p), At(x.im, 2 * p);
    IsI64(ur + br) && IsI64(ui + bi) && IsI64(ur - br) && IsI64(ui - bi)
  }

  // Butterfly t of block p of stage s, on the values the reference's first s - 1 stages leave.
  ghost predicate StageFits(y: Sig, tw: seq<int>, logn: nat, s: nat, p: nat, t: nat)
    requires 1 <= s <= logn
  {
    var half, step := Pow2(s - 1), Pow2(logn - s);
    var a := BlockStart(p, half) + t;
    FlyFits(Stages(y, tw, logn, s - 1, true), a, a + half, TwRe(tw, t, step), TwIm(tw, t, step))
  }

  lemma CellBound(x: Sig, m: nat, i: int)
    requires Bounded(x, m)
    ensures Abs(At(x.re, i)) <= m && Abs(At(x.im, i)) <= m
  {
  }

  lemma BoundedFits(x: Sig, a: int, b: int, wr: int, wi: int, m: nat)
    requires Bounded(x, m) && Abs(wr) <= 0x1_0000 && Abs(wi) <= 0x1_0000 && 0x1_0000 * m < TWO63
    ensures FlyFits(x, a, b, wr, wi)
  {
    hide Bounded, Shr16, At;
    CellBound(x, m, a);
    CellBound(x, m, b);
    var br, bi := At(x.re, b), At(x.im, b);
    ProductBound(wr, br, m);
    ProductBound(wi, bi, m);
    ProductBound(wr, bi, m);
    ProductBound(wi, br, m);
  }

  lemma BoundedPlain(x: Sig, p: nat, m: nat)
    requires Bounded(x, m) && 0x1_0000 * m < TWO63
    ensures PlainFits(x, p)
  {
    hide Bounded, At;
    CellBound(x, m, 2 * p);
    CellBound(x, m, 2 * p + 1);
  }

  lemma BoundedStage(y: Sig, tw: seq<int>, logn: nat, s: nat, p: nat, t: nat, m: nat)
    requires 1 <= s <= logn && Sized(y, Pow2(logn)) && Bounded(y, m) && UnitTwiddles(tw)
    requires 0x1_0000 * Grown(logn, m) < TWO63
    ensures StageFits(y, tw, logn, s, p, t)
  {
    hide Bounded, Stages, Pow2, FlyFits, TwRe, TwIm, UnitTwiddles, Grown, BlockStart;
    var half, step := Pow2(s - 1), Pow2(logn - s);
    StagesBound(y, tw, logn, s - 1, m);
    Pow3Room(s - 1, logn, m);
    TwiddleBound(tw, t, step);
    var a := BlockStart(p, half) + t;
    BoundedFits(Stages(y, tw, logn, s - 1, true), a, a + half, TwRe(tw, t, step), TwIm(tw, t, step), Grown(s - 1, m));
  }

  lemma BoundedUpperNear(x: Sig, logn: nat, m: nat)
    requires logn >= 1 && Sized(x, Pow2(logn)) && Bounded(x, m) && 0x1_0000 * m < TWO63
    ensures AllI64(x) && UpperNear(x, logn)
  {
  }

  // With inputs bounded by m and twiddle components by 65536, stage s leaves values bounded
  // by 3^s * m.  When 65536 * 3^logn * m < 2^63, no product, sum or difference of any
  // butterfly of any stage leaves 64 bits, and neither does any of the peeled stage; so both
  // programs hold the exact values after every stage.
  lemma NoOverflow(x: Sig, tw: seq<int>, logn: nat, m: nat)
    requires logn >= 1 && Sized(x, Pow2(logn)) && Bounded(x, m) && UnitTwiddles(tw) && UnitFirst(tw)
    requires 0x1_0000 * Grown(logn, m) < TWO63
    ensures var y := BitReverse(x, logn);
            && (forall s, p, t | 1 <= s <= logn && 0 <= p < Pow2(logn - s) && 0 <= t < Pow2(s - 1) ::
                  StageFits(y, tw, logn, s, p, t))
            && (forall p | 0 <= p < Pow2(logn - 1) :: PlainFits(y, p))
    ensures var y := BitReverse(x, logn);
            && (forall s | 0 <= s <= logn :: Stages(y, tw, logn, s, false) == Stages(y, tw, logn, s, true))
            && (forall s | 1 <= s <= logn :: PeeledStages(y, tw, logn, s, false) == Stages(y, tw, logn, s, true))
            && (forall s | 0 <= s <= logn :: Bounded(Stages(y, tw, logn, s, true), Grown(s, m)))
    ensures PeeledTransform(x, tw, logn, false) == Transform(x, tw, logn, false) == Transform(x, tw, logn, true)
  {
    hide BitReverse, Stages, PeeledStages, Bounded, StageFits, PlainFits, UpperNear, Pow2, AllI64;
    var y := BitReverse(x, logn);
    BitReverseKeepsBound(x, logn, m);
    Pow3Room(0, logn, m);
    assert Grown(0, m) == m;
    forall s | 0 <= s <= logn
      ensures Stages(y, tw, logn, s, false) == Stages(y, tw, logn, s, true) && Bounded(Stages(y, tw, logn, s, true), Grown(s, m))
    {
      StagesBound(y, tw, logn, s, m);
    }
    forall s, p, t | 1 <= s <= logn && 0 <= p < Pow2(logn - s) && 0 <= t < Pow2(s - 1)
      ensures StageFits(y, tw, logn, s, p, t)
    {
      BoundedStage(y, tw, logn, s, p, t, m);
    }
    forall p | 0 <= p < Pow2(logn - 1) ensures PlainFits(y, p) {
      BoundedPlain(y, p, m);
    }
    BoundedUpperNear(x, logn, m);
    KernelIsReference(x, tw, logn);
  }

  // The benchmark's size and inputs are inside that bound.
  lemma Benchmark256(x: Sig, tw: seq<int>)
    requires Sized(x, Pow2(8)) && Bounded(x, 0x4_0000) && UnitTwiddles(tw) && UnitFirst(tw)
    ensures PeeledTransform(x, tw, 8, false) == Transform(x, tw, 8, false) == Transform(x, tw, 8, true)
    ensures Bounded(Transform(x, tw, 8, true), 6561 * 0x4_0000)
  {
    assert Pow3(4) == 81;
    assert Pow3(8) == 6561;
    NoOverflow(x, tw, 8, 0x4_0000);
  }
}
