/**
 The Q16.16 L1 distance: the scalar loop, the AVX2 form, and exactly when they agree.
 */
module L1 {
  import opened Fixed

  function Diff(x: i32, y: i32): nat { Abs(x - y) }

  // The exact sum the scalar loop accumulates.
  function L1Sum(a: seq<i32>, b: seq<i32>, n: nat): nat
    requires n <= |a| && n <= |b|
  {
    if n == 0 then 0 else L1Sum(a, b, n - 1) + Diff(a[n - 1], b[n - 1])
  }

  method L1Scalar(a: seq<i32>, b: seq<i32>, len: nat) returns (r: i32)
    requires len <= |a| && len <= |b|
    ensures r == ToI32(L1Sum(a, b, len))
  {
    var acc: i64 := 0;
    for i := 0 to len
      invariant acc == ToI64(L1Sum(a, b, i))
    {
      var d := (a[i] as int) - b[i];
      if d < 0 {
        d := -d;
      }
      AddI64(L1Sum(a, b, i), d);
      acc := ToI64(acc + d);
    }
    ToI32OfWrapped(L1Sum(a, b, len));
    r := ToI32(acc);
  }

  // One 32-bit lane: _mm256_sub_epi32, _mm256_abs_epi32 (which leaves the most negative
  // value alone), then _mm256_cvtepi32_epi64.
  function VecDiff(x: i32, y: i32): int {
    var w: int := ToI32(x - y);
    var bits := if w < 0 then U32(-w) else w;
    ToI32(bits)
  }

  // The exact sum the vector form stands for when the first v elements go through lanes.
  function MixedSum(a: seq<i32>, b: seq<i32>, v: nat, n: nat): int
    requires n <= |a| && n <= |b|
  {
    if n == 0 then 0
    else MixedSum(a, b, v, n - 1) + (if n <= v then VecDiff(a[n - 1], b[n - 1]) else Diff(a[n - 1], b[n - 1]))
  }

  // How many leading elements of len go through the vector loop.
  function Vectored(len: nat): nat { len / 8 * 8 }

  // Lane l of the 64-bit accumulator takes elements l and l + 4 of each group of eight.
  function LaneL1(a: seq<i32>, b: seq<i32>, q: nat, l: nat): int
    requires l < 4 && 8 * q <= |a| && 8 * q <= |b|
  {
    if q == 0 then 0
    else
      var i := 8 * (q - 1) + l;
      LaneL1(a, b, q - 1, l) + VecDiff(a[i], b[i]) + VecDiff(a[i + 4], b[i + 4])
  }

  lemma MixedTwo(a: seq<i32>, b: seq<i32>, v: nat, i: nat)
    requires i + 2 <= |a| && i + 2 <= |b| && i + 2 <= v
    ensures MixedSum(a, b, v, i + 2) == MixedSum(a, b, v, i) + VecDiff(a[i], b[i]) + VecDiff(a[i + 1], b[i + 1])
  {
    assert MixedSum(a, b, v, i + 1) == MixedSum(a, b, v, i) + VecDiff(a[i], b[i]);
  }

  lemma {:induction false} LanesAddUp(a: seq<i32>, b: seq<i32>, v: nat, q: nat)
    requires 8 * q <= |a| && 8 * q <= |b| && 8 * q <= v
    ensures LaneL1(a, b, q, 0) + LaneL1(a, b, q, 1) + LaneL1(a, b, q, 2) + LaneL1(a, b, q, 3) == MixedSum(a, b, v, 8 * q)
  {
    hide VecDiff;
    if q > 0 {
      LanesAddUp(a, b, v, q - 1);
      var i := 8 * (q - 1);
      MixedTwo(a, b, v, i);
      MixedTwo(a, b, v, i + 2);
      MixedTwo(a, b, v, i + 4);
      MixedTwo(a, b, v, i + 6);
    }
  }

  // What lane l becomes after the eight elements from i: elements i + l and i + l + 4 added.
  function LaneAdd(a: seq<i32>, b: seq<i32>, i: nat, l: nat, acc: u64): u64
    requires l < 4 && i + 8 <= |a| && i + 8 <= |b|
  {
    U64(U64(acc + U64(VecDiff(a[i + l], b[i + l]))) + U64(VecDiff(a[i + l + 4], b[i + l + 4])))
  }

  lemma LaneStep(a: seq<i32>, b: seq<i32>, q: nat, l: nat)
    requires l < 4 && 8 * q + 8 <= |a| && 8 * q + 8 <= |b|
    ensures LaneAdd(a, b, 8 * q, l, U64(LaneL1(a, b, q, l))) == U64(LaneL1(a, b, q + 1, l))
  {
    hide U64, VecDiff;
    var i := 8 * q + l;
    AddTwoU64(LaneL1(a, b, q, l), VecDiff(a[i], b[i]), VecDiff(a[i + 4], b[i + 4]));
  }

  // One trip of the vector loop.
  method AddEight(a: seq<i32>, b: seq<i32>, ghost q: nat, i: nat, acc: seq<u64>) returns (acc': seq<u64>)
    requires i == 8 * q && i + 8 <= |a| && i + 8 <= |b| && LanesHold(a, b, q, acc)
    ensures LanesHold(a, b, q + 1, acc')
  {
    hide LaneAdd, U64, VecDiff;
    LaneStep(a, b, q, 0);
    LaneStep(a, b, q, 1);
    LaneStep(a, b, q, 2);
    LaneStep(a, b, q, 3);
    acc' := [LaneAdd(a, b, i, 0, acc[0]), LaneAdd(a, b, i, 1, acc[1]),
             LaneAdd(a, b, i, 2, acc[2]), LaneAdd(a, b, i, 3, acc[3])];
  }

  // The accumulator after q groups of eight.
  ghost predicate LanesHold(a: seq<i32>, b: seq<i32>, q: nat, acc: seq<u64>) {
    && 8 * q <= |a| && 8 * q <= |b| && |acc| == 4
    && forall l | 0 <= l < 4 :: acc[l] == U64(LaneL1(a, b, q, l))
  }

  lemma LanesStart(a: seq<i32>, b: seq<i32>)
    ensures LanesHold(a, b, 0, [0, 0, 0, 0])
  {
  }

  lemma LanesTotal(a: seq<i32>, b: seq<i32>, q: nat, acc: seq<u64>)
    requires LanesHold(a, b, q, acc)
    ensures LaneTotal(acc) == ToI64(MixedSum(a, b, 8 * q, 8 * q))
  {
    hide U64, ToI64, VecDiff, LaneTotal;
    var x, y, z, w := LaneL1(a, b, q, 0), LaneL1(a, b, q, 1), LaneL1(a, b, q, 2), LaneL1(a, b, q, 3);
    assert acc == [U64(x), U64(y), U64(z), U64(w)];
    LanesAddUp(a, b, 8 * q, q);
    LaneTotalWraps(x, y, z, w);
  }

  // The vector loop and the horizontal sum.
  method VectorPart(a: seq<i32>, b: seq<i32>, len: nat) returns (i: nat, sum: i64)
    requires len <= |a| && len <= |b|
    ensures i == Vectored(len) <= len && i % 8 == 0 && len - i < 8
    ensures sum == ToI64(MixedSum(a, b, i, i))
  {
    hide U64, ToI64, VecDiff, LaneTotal;
    var acc: seq<u64> := [0, 0, 0, 0];
    i := 0;
    ghost var q := 0;
    LanesStart(a, b);
    while i + 8 <= len
      invariant i == 8 * q <= len && LanesHold(a, b, q, acc)
    {
      acc := AddEight(a, b, q, i, acc);
      i := i + 8;
      q := q + 1;
    }
    LanesTotal(a, b, q, acc);
    sum := LaneTotal(acc);
  }

  method L1Avx2(a: seq<i32>, b: seq<i32>, len: nat) returns (r: i32)
    requires len <= |a| && len <= |b|
    ensures r == ToI32(MixedSum(a, b, Vectored(len), len))
  {
    hide ToI64, ToI32, VecDiff;
    var i, sum := VectorPart(a, b, len);
    ghost var v := i;
    while i < len
      invariant v <= i <= len && sum == ToI64(MixedSum(a, b, v, i))
    {
      var d := (a[i] as int) - b[i];
      if d < 0 {
        d := -d;
      }
      AddI64(MixedSum(a, b, v, i), d);
      sum := ToI64(sum + d);
      i := i + 1;
    }
    ToI32OfWrapped(MixedSum(a, b, v, len));
    r := ToI32(sum);
  }

  // ----- when the two forms agree

  // The differences too wide for a 32-bit lane, added up over the first n elements.
  function Excess(a: seq<i32>, b: seq<i32>, n: nat): nat
    requires n <= |a| && n <= |b|
  {
    if n == 0 then 0
    else Excess(a, b, n - 1) + (if Diff(a[n - 1], b[n - 1]) > TWO31 then Diff(a[n - 1], b[n - 1]) else 0)
  }

  // A lane is right below 2^31, right modulo 2^32 at 2^31, and folds back anything wider.
  lemma LaneError(x: i32, y: i32)
    ensures var d := Diff(x, y);
            VecDiff(x, y) == if d < TWO31 then d else if d == TWO31 then d - TWO32 else TWO32 - d
  {
    var d: int := (x as int) - y;
    var w: int := ToI32(d);
    assert w == if d >= TWO31 then d - TWO32 else if d < -TWO31 then d + TWO32 else d;
    assert w < 0 ==> U32(-w) == -w;
  }

  lemma {:induction false} SumError(a: seq<i32>, b: seq<i32>, v: nat, n: nat) returns (c: int)
    requires n <= |a| && n <= |b|
    ensures L1Sum(a, b, n) - MixedSum(a, b, v, n) == 2 * Excess(a, b, if n < v then n else v) + c * TWO32
  {
    if n == 0 {
      c := 0;
    } else {
      c := SumError(a, b, v, n - 1);
      if n <= v {
        LaneError(a[n - 1], b[n - 1]);
        var d := Diff(a[n - 1], b[n - 1]);
        c := c + if d < TWO31 then 0 else if d == TWO31 then 1 else -1;
      }
    }
  }

  lemma HalfModulus(e: int, c: int)
    ensures (2 * e + c * TWO32) % TWO32 == 0 <==> e % TWO31 == 0
  {
    assert (2 * e + c * TWO32) % TWO32 == (2 * e) % TWO32;
    assert (2 * e) % TWO32 == 2 * (e % TWO31);
  }

  // For every input: the two forms return the same number exactly when the too-wide
  // differences among the vectored elements add up to a multiple of 2^31.
  lemma L1AgreeExactly(a: seq<i32>, b: seq<i32>, len: nat)
    requires len <= |a| && len <= |b|
    ensures (ToI32(MixedSum(a, b, Vectored(len), len)) == ToI32(L1Sum(a, b, len)))
            <==> Excess(a, b, Vectored(len)) % TWO31 == 0
  {
    var v := Vectored(len);
    var c := SumError(a, b, v, len);
    HalfModulus(Excess(a, b, v), c);
    ToI32Congruent(L1Sum(a, b, len), MixedSum(a, b, v, len));
  }

  lemma {:induction false} NoExcess(a: seq<i32>, b: seq<i32>, n: nat)
    requires n <= |a| && n <= |b| && forall i | 0 <= i < n :: Diff(a[i], b[i]) <= TWO31
    ensures Excess(a, b, n) == 0
  {
    if n > 0 {
      NoExcess(a, b, n - 1);
    }
  }

  // In particular they agree whenever no vectored pair is more than 2^31 apart.
  lemma L1AgreeWhenNear(a: seq<i32>, b: seq<i32>, len: nat)
    requires len <= |a| && len <= |b|
    requires forall i | 0 <= i < Vectored(len) :: Diff(a[i], b[i]) <= TWO31
    ensures ToI32(MixedSum(a, b, Vectored(len), len)) == ToI32(L1Sum(a, b, len))
  {
    NoExcess(a, b, Vectored(len));
    L1AgreeExactly(a, b, len);
  }

  // Bit identity is not unconditional: eight pairs, one of them (2^31 - 1, -2).
  lemma L1CanDisagree()
    ensures var a: seq<i32> := [0x7FFF_FFFF, 0, 0, 0, 0, 0, 0, 0];
            var b: seq<i32> := [-2, 0, 0, 0, 0, 0, 0, 0];
            ToI32(MixedSum(a, b, 8, 8)) == 0x7FFF_FFFF && ToI32(L1Sum(a, b, 8)) == -0x7FFF_FFFF
  {
    var a: seq<i32> := [0x7FFF_FFFF, 0, 0, 0, 0, 0, 0, 0];
    var b: seq<i32> := [-2, 0, 0, 0, 0, 0, 0, 0];
    assert L1Sum(a, b, 1) == 0x8000_0001 && MixedSum(a, b, 8, 1) == 0x7FFF_FFFF;
    assert L1Sum(a, b, 3) == L1Sum(a, b, 1) && MixedSum(a, b, 8, 3) == MixedSum(a, b, 8, 1);
    assert L1Sum(a, b, 5) == L1Sum(a, b, 1) && MixedSum(a, b, 8, 5) == MixedSum(a, b, 8, 1);
    assert L1Sum(a, b, 7) == L1Sum(a, b, 1) && MixedSum(a, b, 8, 7) == MixedSum(a, b, 8, 1);
  }

  // ----- the scalar sum is a distance

  lemma {:induction false} L1IsDistance(a: seq<i32>, b: seq<i32>, c: seq<i32>, n: nat)
    requires n <= |a| && n <= |b| && n <= |c|
    ensures L1Sum(a, b, n) == 0 <==> forall i | 0 <= i < n :: a[i] == b[i]
    ensures L1Sum(a, b, n) == L1Sum(b, a, n) && L1Sum(a, c, n) <= L1Sum(a, b, n) + L1Sum(b, c, n)
  {
    if n > 0 {
      L1IsDistance(a, b, c, n - 1);
    }
  }
}
