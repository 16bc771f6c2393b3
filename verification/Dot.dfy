/**
 The Q16.16 dot product: the scalar loop, and the AVX2 form that must match it bit for bit.

 A 256-bit register is four 64-bit lanes, each an unsigned number; the intrinsics used are
 modelled on lanes as their bit patterns behave.
 */
module Dot {
  import opened Fixed

  // One Q16.16 product.
  function Term(x: i32, y: i32): int { Shr16(x * y) }

  // The exact sum that both forms compute, before truncation.
  function DotSum(a: seq<i32>, b: seq<i32>, n: nat): int
    requires n <= |a| && n <= |b|
  {
    if n == 0 then 0 else DotSum(a, b, n - 1) + Term(a[n - 1], b[n - 1])
  }

  method DotScalar(a: seq<i32>, b: seq<i32>, len: nat) returns (r: i32)
    requires len <= |a| && len <= |b|
    ensures r == ToI32(DotSum(a, b, len))
  {
    var acc: i64 := 0;
    for i := 0 to len
      invariant acc == ToI64(DotSum(a, b, i))
    {
      AddI64(DotSum(a, b, i), Term(a[i], b[i]));
      acc := ToI64(acc + Term(a[i], b[i]));
    }
    ToI32OfWrapped(DotSum(a, b, len));
    r := ToI32(acc);
  }

  // ----- lanes

  // Bitwise or.
  function Or(x: nat, y: nat): nat
    decreases x + y
  {
    if x == 0 then y else if y == 0 then x
    else (if x % 2 == 1 || y % 2 == 1 then 1 else 0) + 2 * Or(x / 2, y / 2)
  }

  lemma {:induction false} OrDisjoint(x: nat, y: nat, k: nat)
    requires x < Pow2(k)
    ensures Or(x, y * Pow2(k)) == x + y * Pow2(k)
  {
    if k > 0 && x > 0 && y > 0 {
      var q := y * Pow2(k - 1);
      assert y * Pow2(k) == 2 * q;
      OrDisjoint(x / 2, y, k - 1);
    }
  }

  lemma Pow48()
    ensures Pow2(48) == 0x1_0000_0000_0000
  {
    assert Pow2(12) == 0x1000;
    assert Pow2(24) == 0x100_0000;
    assert Pow2(36) == 0x10_0000_0000;
  }

  // _mm256_cmpgt_epi64(0, x), one lane.
  function SignMask(x: u64): u64 { if x >= TWO63 then TWO64 - 1 else 0 }

  // The emulated arithmetic shift of one 64-bit lane by 16.
  function Srai16(x: u64): nat {
    var logical := x / TWO16;
    var fill := U64(SignMask(x) * Pow2(48));
    Or(logical, fill)
  }

  lemma ShiftBounds(x: i64)
    ensures ToI64(U64(Shr16(x))) == Shr16(x) && 0x1_0000 * Shr16(x) <= x < 0x1_0000 * (Shr16(x) + 1)
  {
    hide U64, ToI64;
    SignedView(Shr16(x));
    FitsI64(Shr16(x));
  }

  // It is division by 2^16 rounding down, on every signed 64-bit value.
  lemma SraiIsFloor(x: u64)
    ensures Srai16(x) == U64(Shr16(ToI64(x)))
    ensures var r := ToI64(Srai16(x)); 0x1_0000 * r <= ToI64(x) < 0x1_0000 * (r + 1)
  {
    hide Srai16, U64, ToI64, Shr16;
    SraiBits(x);
    ShiftBounds(ToI64(x));
  }

  lemma SraiBits(x: u64)
    ensures Srai16(x) == U64(Shr16(ToI64(x)))
  {
    hide Or, Pow2;
    var logical := x / TWO16;
    Pow48();
    if x >= TWO63 {
      var fill := U64(SignMask(x) * Pow2(48));
      assert fill == 0xFFFF * Pow2(48);
      OrDisjoint(logical, 0xFFFF, 48);
    } else {
      OrDisjoint(logical, 0, 48);
    }
  }

  // _mm256_mul_epi32, one lane: the low halves, sign-extended, multiplied to 64 bits.
  function MulEpi32(x: u64, y: u64): u64 { U64(ToI32(x) * ToI32(y)) }

  // Two adjacent i32 values as they sit in one little-endian 64-bit lane.
  function Pair(lo: i32, hi: i32): u64 { U32(lo) + TWO32 * U32(hi) }

  // Lane l of _mm256_loadu_si256(a + i).
  function LoadLane(a: seq<i32>, i: nat, l: nat): u64
    requires l < 4 && i + 8 <= |a|
  {
    Pair(a[i + 2 * l], a[i + 2 * l + 1])
  }

  // What lane l adds to the accumulator for the eight elements from i.
  function LaneAdd(a: seq<i32>, b: seq<i32>, i: nat, l: nat, acc: u64): u64
    requires l < 4 && i + 8 <= |a| && i + 8 <= |b|
  {
    var va, vb := LoadLane(a, i, l), LoadLane(b, i, l);
    var even := Srai16(MulEpi32(va, vb));
    var odd := Srai16(MulEpi32(va / TWO32, vb / TWO32));
    U64(U64(acc + even) + odd)
  }

  // The exact sum that lane l stands for after q groups of eight.
  function LaneSum(a: seq<i32>, b: seq<i32>, q: nat, l: nat): int
    requires l < 4 && 8 * q <= |a| && 8 * q <= |b|
  {
    if q == 0 then 0
    else
      var i := 8 * (q - 1) + 2 * l;
      LaneSum(a, b, q - 1, l) + Term(a[i], b[i]) + Term(a[i + 1], b[i + 1])
  }

  lemma PairHalves(lo: i32, hi: i32)
    ensures ToI32(Pair(lo, hi)) == lo && ToI32(Pair(lo, hi) / TWO32) == hi
  {
    assert Pair(lo, hi) / TWO32 == U32(hi);
  }

  lemma MulHalves(lo: i32, hi: i32, lo': i32, hi': i32)
    ensures MulEpi32(Pair(lo, hi), Pair(lo', hi')) == U64(lo * lo')
    ensures MulEpi32(Pair(lo, hi) / TWO32, Pair(lo', hi') / TWO32) == U64(hi * hi')
  {
    PairHalves(lo, hi);
    PairHalves(lo', hi');
  }

  lemma ProductFits(x: i32, y: i32)
    ensures -0x4000_0000_0000_0000 <= x * y <= 0x4000_0000_0000_0000
  {
    AbsProduct(x, y, TWO31, TWO31);
  }

  lemma ShiftedLane(p: int)
    requires -0x4000_0000_0000_0000 <= p <= 0x4000_0000_0000_0000
    ensures Srai16(U64(p)) == U64(Shr16(p)) && Abs(Shr16(p)) <= 0x4000_0000_0000
  {
    hide Srai16;
    SraiIsFloor(U64(p));
    assert ToI64(U64(p)) == p;
  }

  lemma ShiftedProduct(x: i32, y: i32)
    ensures Srai16(U64(x * y)) == U64(Term(x, y))
    ensures Abs(Term(x, y)) <= 0x4000_0000_0000
  {
    hide Srai16, U64;
    ProductFits(x, y);
    ShiftedLane(x * y);
  }

  lemma LaneStep(a: seq<i32>, b: seq<i32>, q: nat, l: nat)
    requires l < 4 && 8 * q + 8 <= |a| && 8 * q + 8 <= |b|
    ensures LaneAdd(a, b, 8 * q, l, U64(LaneSum(a, b, q, l))) == U64(LaneSum(a, b, q + 1, l))
  {
    hide U64, Srai16, MulEpi32, Pair, Term;
    var i := 8 * q + 2 * l;
    MulHalves(a[i], a[i + 1], b[i], b[i + 1]);
    ShiftedProduct(a[i], b[i]);
    ShiftedProduct(a[i + 1], b[i + 1]);
    var s, t, u := LaneSum(a, b, q, l), Term(a[i], b[i]), Term(a[i + 1], b[i + 1]);
    AddTwoU64(s, t, u);
  }

  lemma {:induction false} LanesAddUp(a: seq<i32>, b: seq<i32>, q: nat)
    requires 8 * q <= |a| && 8 * q <= |b|
    ensures LaneSum(a, b, q, 0) + LaneSum(a, b, q, 1) + LaneSum(a, b, q, 2) + LaneSum(a, b, q, 3) == DotSum(a, b, 8 * q)
  {
    hide Term;
    if q > 0 {
      LanesAddUp(a, b, q - 1);
      var i := 8 * (q - 1);
      assert DotSum(a, b, i + 2) == DotSum(a, b, i) + Term(a[i], b[i]) + Term(a[i + 1], b[i + 1]);
      assert DotSum(a, b, i + 4) == DotSum(a, b, i + 2) + Term(a[i + 2], b[i + 2]) + Term(a[i + 3], b[i + 3]);
      assert DotSum(a, b, i + 6) == DotSum(a, b, i + 4) + Term(a[i + 4], b[i + 4]) + Term(a[i + 5], b[i + 5]);
      assert DotSum(a, b, i + 8) == DotSum(a, b, i + 6) + Term(a[i + 6], b[i + 6]) + Term(a[i + 7], b[i + 7]);
    }
  }

  // The accumulator after q groups of eight.
  ghost predicate LanesHold(a: seq<i32>, b: seq<i32>, q: nat, acc: seq<u64>) {
    && 8 * q <= |a| && 8 * q <= |b| && |acc| == 4
    && forall l | 0 <= l < 4 :: acc[l] == U64(LaneSum(a, b, q, l))
  }

  lemma LanesStart(a: seq<i32>, b: seq<i32>)
    ensures LanesHold(a, b, 0, [0, 0, 0, 0])
  {
  }

  lemma LanesTotal(a: seq<i32>, b: seq<i32>, q: nat, acc: seq<u64>)
    requires LanesHold(a, b, q, acc)
    ensures LaneTotal(acc) == ToI64(DotSum(a, b, 8 * q))
  {
    hide U64, ToI64, Term, LaneTotal;
    var x, y, z, w := LaneSum(a, b, q, 0), LaneSum(a, b, q, 1), LaneSum(a, b, q, 2), LaneSum(a, b, q, 3);
    assert acc == [U64(x), U64(y), U64(z), U64(w)];
    LanesAddUp(a, b, q);
    LaneTotalWraps(x, y, z, w);
  }

  // One trip of the vector loop: eight elements into four lanes.
  method AddEight(a: seq<i32>, b: seq<i32>, ghost q: nat, i: nat, acc: seq<u64>) returns (acc': seq<u64>)
    requires i == 8 * q && i + 8 <= |a| && i + 8 <= |b| && LanesHold(a, b, q, acc)
    ensures LanesHold(a, b, q + 1, acc')
  {
    hide LaneAdd, U64, Term;
    LaneStep(a, b, q, 0);
    LaneStep(a, b, q, 1);
    LaneStep(a, b, q, 2);
    LaneStep(a, b, q, 3);
    acc' := [LaneAdd(a, b, i, 0, acc[0]), LaneAdd(a, b, i, 1, acc[1]),
             LaneAdd(a, b, i, 2, acc[2]), LaneAdd(a, b, i, 3, acc[3])];
  }

  // The same result as DotScalar for every input and every length.
  method DotAvx2(a: seq<i32>, b: seq<i32>, len: nat) returns (r: i32)
    requires len <= |a| && len <= |b|
    ensures r == ToI32(DotSum(a, b, len))
  {
    hide U64, ToI64, ToI32, LaneTotal, Term;
    var acc: seq<u64> := [0, 0, 0, 0];
    var i := 0;
    ghost var q := 0;
    LanesStart(a, b);
    while i + 8 <= len
      invariant i == 8 * q <= len && LanesHold(a, b, q, acc)
    {
      acc := AddEight(a, b, q, i, acc);
      i := i + 8;
      q := q + 1;
    }
    LanesTotal(a, b, q, acc);
    var sum := LaneTotal(acc);
    while i < len
      invariant i <= len && sum == ToI64(DotSum(a, b, i))
    {
      AddI64(DotSum(a, b, i), Term(a[i], b[i]));
      sum := ToI64(sum + Term(a[i], b[i]));
      i := i + 1;
    }
    ToI32OfWrapped(DotSum(a, b, len));
    r := ToI32(sum);
  }

  // The exact inner product, without any shift.
  function Exact(a: seq<i32>, b: seq<i32>, n: nat): int
    requires n <= |a| && n <= |b|
  {
    if n == 0 then 0 else Exact(a, b, n - 1) + (a[n - 1] as int) * b[n - 1]
  }

  // What both forms add up is the exact inner product over 2^16, rounded down once per term.
  lemma {:induction false} DotRoundsDown(a: seq<i32>, b: seq<i32>, n: nat)
    requires n <= |a| && n <= |b|
    ensures 0x1_0000 * DotSum(a, b, n) <= Exact(a, b, n) <= 0x1_0000 * DotSum(a, b, n) + 0xFFFF * n
  {
    if n > 0 {
      DotRoundsDown(a, b, n - 1);
      TermRoundsDown(a[n - 1], b[n - 1]);
    }
  }

  lemma TermRoundsDown(x: i32, y: i32)
    ensures 0x1_0000 * Term(x, y) <= (x as int) * y <= 0x1_0000 * Term(x, y) + 0xFFFF
  {
    var p := (x as int) * y;
  }

  // ----- overflow

  lemma {:induction false} DotSumBound(a: seq<i32>, b: seq<i32>, n: nat)
    requires n <= |a| && n <= |b|
    ensures Abs(DotSum(a, b, n)) <= n * 0x4000_0000_0000
  {
    if n > 0 {
      DotSumBound(a, b, n - 1);
      ShiftedProduct(a[n - 1], b[n - 1]);
    }
  }

  lemma {:induction false} LaneSumBound(a: seq<i32>, b: seq<i32>, q: nat, l: nat)
    requires l < 4 && 8 * q <= |a| && 8 * q <= |b|
    ensures Abs(LaneSum(a, b, q, l)) <= 2 * q * 0x4000_0000_0000
  {
    if q > 0 {
      LaneSumBound(a, b, q - 1, l);
      var i := 8 * (q - 1) + 2 * l;
      ShiftedProduct(a[i], b[i]);
      ShiftedProduct(a[i + 1], b[i + 1]);
    }
  }

  ghost predicate Fits(x: int) { ToI64(x) == x }

  // The lane between the even and the odd addition of one trip.
  function HalfWay(a: seq<i32>, b: seq<i32>, q: nat, l: nat): int
    requires l < 4 && 8 * q + 8 <= |a| && 8 * q + 8 <= |b|
  {
    LaneSum(a, b, q, l) + Term(a[8 * q + 2 * l], b[8 * q + 2 * l])
  }

  // Below 2^17 elements no accumulator of either form, at any point, leaves the i64 range:
  // not the scalar sum or the tail after any element, not a lane before, inside or after any
  // trip, not a partial sum of lanes.
  lemma NoOverflow(a: seq<i32>, b: seq<i32>, n: nat)
    requires n <= |a| && n <= |b| && n < 0x2_0000
    ensures forall i | 0 <= i <= n :: Fits(DotSum(a, b, i))
    ensures forall q, l | 0 <= q <= n / 8 && 0 <= l < 4 :: Fits(LaneSum(a, b, q, l))
    ensures forall q, l | 0 <= q < n / 8 && 0 <= l < 4 :: Fits(HalfWay(a, b, q, l))
    ensures var s := LaneSum(a, b, n / 8, 0) + LaneSum(a, b, n / 8, 1);
            var t := s + LaneSum(a, b, n / 8, 2);
            Fits(s) && Fits(t) && Fits(t + LaneSum(a, b, n / 8, 3))
  {
    hide ToI64, Term, LaneSum;
    forall i | 0 <= i <= n ensures Fits(DotSum(a, b, i)) {
      DotSumBound(a, b, i);
      FitsI64(DotSum(a, b, i));
    }
    forall q, l | 0 <= q <= n / 8 && 0 <= l < 4
      ensures Fits(LaneSum(a, b, q, l)) && Abs(LaneSum(a, b, q, l)) <= 2 * q * 0x4000_0000_0000
    {
      LaneSumBound(a, b, q, l);
      FitsI64(LaneSum(a, b, q, l));
    }
    forall q, l | 0 <= q < n / 8 && 0 <= l < 4 ensures Fits(HalfWay(a, b, q, l)) {
      LaneSumBound(a, b, q, l);
      ShiftedProduct(a[8 * q + 2 * l], b[8 * q + 2 * l]);
      FitsI64(HalfWay(a, b, q, l));
    }
    PartialSumsFit(a, b, n / 8);
  }

  lemma PartialSumsFit(a: seq<i32>, b: seq<i32>, q: nat)
    requires 8 * q <= |a| && 8 * q <= |b| && q < 0x4000
    ensures var s := LaneSum(a, b, q, 0) + LaneSum(a, b, q, 1);
            var t := s + LaneSum(a, b, q, 2);
            Fits(s) && Fits(t) && Fits(t + LaneSum(a, b, q, 3))
  {
    hide ToI64, LaneSum;
    LaneSumBound(a, b, q, 0);
    LaneSumBound(a, b, q, 1);
    LaneSumBound(a, b, q, 2);
    LaneSumBound(a, b, q, 3);
    var s := LaneSum(a, b, q, 0) + LaneSum(a, b, q, 1);
    var t := s + LaneSum(a, b, q, 2);
    FitsI64(s);
    FitsI64(t);
    FitsI64(t + LaneSum(a, b, q, 3));
  }
}
