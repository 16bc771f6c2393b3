/**
 Machine integers and Q16.16 terms, over unbounded integers with the widths written out.
 */
module Fixed {

  const TWO16 := 0x1_0000
  const TWO31 := 0x8000_0000
  const TWO32 := 0x1_0000_0000
  const TWO63 := 0x8000_0000_0000_0000
  const TWO64 := 0x1_0000_0000_0000_0000

  type i32 = x: int | -0x8000_0000 <= x < 0x8000_0000
  type i64 = x: int | -0x8000_0000_0000_0000 <= x < 0x8000_0000_0000_0000
  type u64 = x: int | 0 <= x < 0x1_0000_0000_0000_0000

  predicate IsI64(x: int) { -TWO63 <= x < TWO63 }

  function U32(x: int): int { x % TWO32 }

  function U64(x: int): u64 { x % TWO64 }

  // The signed number whose low bits are those of x.
  function ToI32(x: int): i32 { (x + TWO31) % TWO32 - TWO31 }

  function ToI64(x: int): i64 { (x + TWO63) % TWO64 - TWO63 }

  // Arithmetic right shift by 16: division rounding down.
  function Shr16(x: int): int { x / TWO16 }

  function Abs(x: int): nat { if x < 0 then -x else x }

  function Pow2(k: nat): (p: nat)
    ensures p > 0
  {
    if k == 0 then 1 else 2 * Pow2(k - 1)
  }

  lemma {:induction false} Pow2Add(a: nat, b: nat)
    ensures Pow2(a + b) == Pow2(a) * Pow2(b)
  {
    if a > 0 {
      Pow2Add(a - 1, b);
      assert Pow2(a + b) == 2 * (Pow2(a - 1) * Pow2(b)) == (2 * Pow2(a - 1)) * Pow2(b);
    }
  }

  lemma {:induction false} Pow2Grows(a: nat, b: nat)
    ensures a <= b ==> Pow2(a) <= Pow2(b)
    ensures a > b ==> Pow2(a) > Pow2(b)
    decreases a + b
  {
    if a > 0 && b > 0 {
      Pow2Grows(a - 1, b - 1);
    }
  }

  lemma MulNonneg(p: nat, q: nat)
    ensures 0 <= p * q
  {
  }

  lemma MulMonotone(a: nat, b: nat, d: nat)
    requires a <= b
    ensures a * d <= b * d
  {
    assert (b - a) * d >= 0;
  }

  lemma SameQuotient(p: nat, r: nat, p': nat, r': nat, d: nat)
    requires r < d && r' < d && p * d + r == p' * d + r'
    ensures p == p' && r == r'
  {
    assert (p + 1) * d == p * d + d && (p' + 1) * d == p' * d + d;
    if p < p' {
      MulMonotone(p + 1, p', d);
      assert false;
    } else if p' < p {
      MulMonotone(p' + 1, p, d);
      assert false;
    }
  }

  lemma QuotientIs(m: nat, d: nat, q: nat, r: nat)
    requires r < d && m == q * d + r
    ensures m / d == q
  {
    assert m == m / d * d + m % d;
    SameQuotient(m / d, m % d, q, r, d);
  }

  lemma AbsProduct(x: int, y: int, p: int, q: int)
    requires -p <= x <= p && -q <= y <= q
    ensures -(p * q) <= x * y <= p * q
  {
    MulNonneg(p - x, q + y);
    MulNonneg(p + x, q - y);
    MulNonneg(p - x, q - y);
    MulNonneg(p + x, q + y);
    assert (p - x) * (q + y) + (p + x) * (q - y) == 2 * (p * q) - 2 * (x * y);
    assert (p - x) * (q - y) + (p + x) * (q + y) == 2 * (p * q) + 2 * (x * y);
  }

  lemma ToI32Congruent(x: int, y: int)
    ensures ToI32(x) == ToI32(y) <==> (x - y) % TWO32 == 0
  {
  }

  lemma AddU64(x: int, y: int)
    ensures U64(U64(x) + y) == U64(x + y)
    ensures U64(U64(x) + U64(y)) == U64(x + y)
  {
  }

  lemma AddTwoU64(s: int, x: int, y: int)
    ensures U64(U64(U64(s) + U64(x)) + U64(y)) == U64(s + x + y)
  {
    hide U64;
    AddU64(s, x);
    AddU64(s + x, y);
  }

  lemma AddI64(x: int, y: int)
    ensures ToI64(ToI64(x) + y) == ToI64(x + y)
    ensures ToI64(ToI64(x) + ToI64(y)) == ToI64(x + y)
  {
    hide ToI64;
    var k, m := Wraps(x), Wraps(y);
    WrapsIs(x);
    WrapsIs(y);
    ToI64Shift(x + y, -k);
    ToI64Shift(x + y, -k - m);
  }

  // How many times 2^64 is taken off.
  function Wraps(x: int): int { (x + TWO63) / TWO64 }

  lemma WrapsIs(x: int)
    ensures ToI64(x) == x - Wraps(x) * TWO64
  {
  }

  lemma ToI64Shift(x: int, k: int)
    ensures ToI64(x + k * TWO64) == ToI64(x)
  {
  }

  lemma SignedView(x: int)
    ensures ToI64(U64(x)) == ToI64(x)
  {
  }

  lemma FitsI64(x: int)
    requires -TWO63 <= x < TWO63
    ensures ToI64(x) == x
  {
  }

  lemma ToI32OfWrapped(x: int)
    ensures ToI32(ToI64(x)) == ToI32(x)
  {
    hide ToI32, ToI64, Wraps;
    var k := Wraps(x);
    WrapsIs(x);
    ToI32Shift(x, -k * TWO32);
    assert -k * TWO32 * TWO32 == -(k * TWO64);
  }

  lemma ToI32Shift(x: int, k: int)
    ensures ToI32(x + k * TWO32) == ToI32(x)
  {
  }

  // The horizontal sum of a register of four 64-bit lanes.
  function LaneTotal(acc: seq<u64>): i64
    requires |acc| == 4
  {
    ToI64(ToI64(ToI64(ToI64(acc[0]) + ToI64(acc[1])) + ToI64(acc[2])) + ToI64(acc[3]))
  }

  lemma LaneTotalWraps(x: int, y: int, z: int, w: int)
    ensures LaneTotal([U64(x), U64(y), U64(z), U64(w)]) == ToI64(x + y + z + w)
  {
    hide U64, ToI64;
    SignedView(x);
    SignedView(y);
    SignedView(z);
    SignedView(w);
    AddI64(x, y);
    AddI64(x + y, z);
    AddI64(x + y + z, w);
  }
}
