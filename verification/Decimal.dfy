/**
 Two decimal printers for i64: one least significant digit first through a 20-digit buffer,
 one most significant first with a growing divisor, appending to a string handle.
 */
module Decimal {
  import opened Fixed
  import opened Heap
  import opened Strings

  const MINUS := 45
  const ZERO := 48

  // The decimal digits of m, most significant first.
  function Digits(m: nat): (s: seq<int>)
    ensures s != []
  {
    if m < 10 then [ZERO + m] else Digits(m / 10) + [ZERO + m % 10]
  }

  function Text10(v: int): seq<int> {
    if v < 0 then [MINUS] + Digits(-v) else Digits(v)
  }

  // ----- reading it back

  function Value(s: seq<int>): int {
    if s == [] then 0 else 10 * Value(s[..|s| - 1]) + (s[|s| - 1] - 48)
  }

  function Parse(s: seq<int>): int {
    if s != [] && s[0] == 45 then -Value(s[1..]) else Value(s)
  }

  lemma {:induction false} ValueOfDigits(m: nat)
    ensures Value(Digits(m)) == m && forall i | 0 <= i < |Digits(m)| :: ZERO <= Digits(m)[i] < ZERO + 10
  {
    if m < 10 {
      assert Digits(m)[..0] == [];
    } else {
      ValueOfDigits(m / 10);
      assert Digits(m)[..|Digits(m)| - 1] == Digits(m / 10);
    }
  }

  // Parsing what is printed gives the number back, for every i64 including the least.
  lemma ParseOfText(v: i64)
    ensures Parse(Text10(v)) == v
  {
    var m: int := if v < 0 then -(v as int) else v;
    ValueOfDigits(m);
    if v < 0 {
      assert Text10(v)[1..] == Digits(m);
    } else {
      assert Text10(v)[0] != MINUS;
    }
  }

  // The text is plain decimal: a minus sign exactly for negative numbers, then digits, with no
  // zero in front of others.
  lemma TextIsDecimal(v: i64)
    ensures var s := Text10(v); var d := if v < 0 then s[1..] else s;
            && s != [] && (v < 0 ==> s[0] == 45) && d != []
            && (forall i | 0 <= i < |d| :: 48 <= d[i] <= 57) && (|d| > 1 ==> d[0] != 48)
  {
    var m: int := if v < 0 then -(v as int) else v;
    ValueOfDigits(m);
    NoLeadingZero(m);
    assert v < 0 ==> Text10(v)[1..] == Digits(m);
  }

  lemma {:induction false} NoLeadingZero(m: nat)
    ensures m > 0 ==> Digits(m)[0] != 48
    ensures |Digits(m)| > 1 ==> m > 0
  {
    if m >= 10 {
      NoLeadingZero(m / 10);
    }
  }

  // ----- lengths

  function Pow10(k: nat): (p: nat)
    ensures p > 0
  {
    if k == 0 then 1 else 10 * Pow10(k - 1)
  }

  lemma TwentyDigits()
    ensures TWO64 <= Pow10(20)
  {
    assert Pow10(10) == 10_000_000_000;
    assert Pow10(20) == 100_000_000_000_000_000_000;
  }

  // ----- printI64

  function Backwards(s: seq<int>): (r: seq<int>)
    ensures |r| == |s| && forall i | 0 <= i < |s| :: r[i] == s[|s| - 1 - i]
  {
    seq(|s|, i requires 0 <= i < |s| => s[|s| - 1 - i])
  }

  lemma BackwardsSnoc(s: seq<int>, x: int)
    ensures Backwards(s + [x]) == [x] + Backwards(s)
  {
  }

  // The magnitude as computed on 64-bit words, right also for the least i64.
  function Magnitude(v: i64): u64 {
    if v < 0 then U64(-(v as int)) else v
  }

  lemma MagnitudeIs(v: i64)
    ensures Magnitude(v) == if v < 0 then -(v as int) else v
  {
  }

  // The digits of m0 are the digits of what is left, followed by those already written down,
  // newest first.
  ghost predicate Pulled(m0: nat, m: nat, written: seq<int>) {
    if m == 0 then written != [] && Digits(m0) == Backwards(written)
    else Digits(m0) == Digits(m) + Backwards(written)
  }

  lemma PullDigit(m0: nat, m: nat, written: seq<int>)
    requires Pulled(m0, m, written) && (m > 0 || (m == 0 && m0 == 0 && written == []))
    ensures Pulled(m0, m / 10, written + [ZERO + m % 10])
  {
    BackwardsSnoc(written, ZERO + m % 10);
    if m >= 10 {
      assert Digits(m) + Backwards(written) == Digits(m / 10) + ([ZERO + m % 10] + Backwards(written));
    }
  }

  // Filling the 20-byte digit buffer; the buffer never runs out first.
  method PullDigits(mag: u64, digits: array<int>) returns (n: nat)
    requires digits.Length == 20
    modifies digits
    ensures 0 < n <= 20 && Digits(mag) == Backwards(digits[..n])
  {
    hide Digits, Backwards;
    n := 0;
    var m: nat := mag;
    digits[n] := ZERO + m % 10;
    FirstDigit(m);
    assert digits[..1] == [ZERO + m % 10];
    n, m := 1, m / 10;
    TwentyDigits();
    PowerLeft(mag, 1);
    while m != 0 && n < 20
      invariant 1 <= n <= 20 && Pulled(mag, m, digits[..n])
      invariant m < Pow10(20 - n)
      decreases 20 - n
    {
      PullDigit(mag, m, digits[..n]);
      PowerLeft(m, n + 1);
      digits[n] := ZERO + m % 10;
      assert digits[..n + 1] == digits[..n] + [ZERO + m % 10];
      n, m := n + 1, m / 10;
    }
  }

  lemma FirstDigit(m: nat)
    ensures Pulled(m, m / 10, [ZERO + m % 10])
  {
    assert Backwards([ZERO + m % 10]) == [ZERO + m % 10];
  }

  lemma PowerLeft(m: nat, k: nat)
    requires 1 <= k <= 20 && m < Pow10(21 - k)
    ensures m / 10 < Pow10(20 - k)
  {
  }

  // printI64: the bytes written.
  method PrintI64(v: i64) returns (out: seq<int>)
    ensures out == Text10(v) && |out| <= 24
  {
    hide Digits, Magnitude;
    MagnitudeIs(v);
    var mag := Magnitude(v);
    var digits := new int[20];
    var n := PullDigits(mag, digits);
    ghost var written := digits[..n];
    out := if v < 0 then [MINUS] else [];
    ghost var sign := out;
    ghost var k := 0;
    while n > 0
      invariant 0 <= n <= digits.Length && k + n == |written| && digits[..n] == written[..n]
      invariant out == sign + Backwards(written)[..k]
    {
      n := n - 1;
      out := out + [digits[n]];
      k := k + 1;
    }
    assert Backwards(written)[..k] == Backwards(written);
  }

  // ----- string_push_i64

  lemma QuotientOfQuotient(m: nat, p: nat)
    requires p > 0
    ensures (m / p) / 10 == m / (10 * p)
  {
    var q, r := m / p, m % p;
    assert m == q * p + r;
    Regroup(q / 10, q % 10, p);
    MulMonotone(q % 10, 9, p);
    QuotientIs(m, 10 * p, q / 10, q % 10 * p + r);
  }

  lemma Regroup(a: nat, b: nat, p: nat)
    ensures (10 * a + b) * p == a * (10 * p) + b * p && b * p >= 0
  {
    MulNonneg(b, p);
  }

  // The largest power of ten not above mag, and its exponent.
  method LeadingPower(mag: u64) returns (div: u64, ghost k: nat)
    requires mag > 0
    ensures div == Pow10(k) <= mag && mag / Pow10(k) < 10
    ensures 0 < div <= mag && mag / div < 10
  {
    hide U64;
    div := 1;
    k := 0;
    var tmp: nat := mag;
    assert mag / 1 == mag;
    while tmp >= 10
      invariant div == Pow10(k) <= mag && tmp == mag / Pow10(k) && tmp > 0
      decreases tmp
    {
      QuotientOfQuotient(mag, Pow10(k));
      StillBelow(mag, Pow10(k));
      KeepsU64(div * 10);
      div := U64(div * 10);
      k := k + 1;
      tmp := tmp / 10;
    }
  }

  lemma KeepsU64(x: int)
    requires 0 <= x < TWO64
    ensures U64(x) == x
  {
  }

  lemma StillBelow(m: nat, p: nat)
    requires p > 0 && m / p >= 10
    ensures 10 * p <= m
  {
    MulMonotone(10, m / p, p);
    assert m == m / p * p + m % p;
  }

  // The digit of m at the place of p.
  function DigitAt(m: nat, p: nat): (d: nat)
    requires p > 0
    ensures d < 10
  {
    m / p % 10
  }

  lemma PowDown(j: nat)
    ensures Pow10(j) / 10 == if j == 0 then 0 else Pow10(j - 1)
  {
  }

  // The digits of m down to the place of 10^j, once the place above has been written.
  ghost function Above(m: nat, j: nat, k: nat): seq<int> {
    if j > k then [] else
      QuotientNonneg(m, Pow10(j));
      Digits(m / Pow10(j))
  }

  lemma QuotientNonneg(m: nat, p: nat)
    requires p > 0
    ensures m / p >= 0
  {
  }

  lemma NextPlace(m: nat, j: nat, k: nat)
    requires j <= k && Pow10(k) <= m && m / Pow10(k) < 10
    ensures Above(m, j, k) == Above(m, j + 1, k) + [ZERO + DigitAt(m, Pow10(j))]
  {
    if j < k {
      QuotientOfQuotient(m, Pow10(j));
      PowAtMost(j + 1, k);
      NotBelowTen(m, j, k);
    }
  }

  lemma {:induction false} PowAtMost(j: nat, k: nat)
    requires j <= k
    ensures Pow10(j) <= Pow10(k)
  {
    if j < k {
      PowAtMost(j, k - 1);
    }
  }

  lemma NotBelowTen(m: nat, j: nat, k: nat)
    requires j < k && Pow10(k) <= m
    ensures m / Pow10(j) >= 10
  {
    PowAtMost(j + 1, k);
    var p, q := Pow10(j), m / Pow10(j);
    assert m == q * p + m % p;
    if q < 10 {
      MulMonotone(q, 9, p);
    }
  }

  // Appends compose.
  lemma AppendedTwice(h: Bytes, h1: Bytes, h2: Bytes, spare: set<int>, s1: int, s2: int)
    requires Appended(h, h1, spare, s1) && Appended(h1, h2, Spare(h1, s1), s2)
    ensures Appended(h, h2, spare, s2)
  {
    hide Spare, Agree;
    AgreeSubset(h1, h2, h1.Keys - Spare(h1, s1), h.Keys - spare);
    AgreeTrans(h, h1, h2, h.Keys - spare);
  }

  // The digit loop: one string_push_byte per digit, most significant first.
  method PushDigits(a: Arena, s: int, mag: u64, div0: u64, ghost k: nat, ghost t: seq<int>) returns (r: Pushed)
    requires a.Valid() && Str(a.mem, s, t) && div0 == Pow10(k) <= mag && mag / Pow10(k) < 10
    modifies a
    ensures a.Valid()
    ensures r.Pushed? ==> Str(a.mem, r.handle, t + Digits(mag))
    ensures r.Pushed? ==> Appended(old(a.mem), a.mem, Spare(old(a.mem), s), r.handle)
    ensures r.OutOfBounds? ==> Hdr(old(a.mem), s).cap == 0 && |t| >= 16
    ensures r.NoMemory? ==> Exhausted(a.mem, Request(Hdr(old(a.mem), s).cap, |t| + |Digits(mag)|))
    ensures r.Pushed? ==> Hdr(a.mem, r.handle).cap > 0
  {
    hide Str, Hdr, Spare, Appended, Digits, Exhausted, DigitAt, Pow10, Above, NextCap;
    ghost var h, spare, cap0 := a.mem, Spare(a.mem, s), Hdr(a.mem, s).cap;
    ghost var most := Request(cap0, |t| + |Digits(mag)|);
    var div: nat := div0;
    ghost var j := k;
    CapBound(h, s, t);
    TopPlace(mag, k);
    NextPlace(mag, k, k);
    r := FirstPush(a, s, ZERO + DigitAt(mag, div), t);
    if !r.Pushed? {
      if r.NoMemory? { MoreExhausted(a.mem, 2 * cap0 + 24, most); }
      return;
    }
    assert t + [ZERO + DigitAt(mag, div)] == t + Above(mag, k, k);
    PowDown(k);
    div := div / 10;
    while div > 0
      invariant a.Valid() && r.Pushed? && 0 <= j <= k
      invariant div == (if j == 0 then 0 else Pow10(j - 1))
      invariant Str(a.mem, r.handle, t + Above(mag, j, k))
      invariant 0 < Hdr(a.mem, r.handle).cap <= cap0 + 2 * (|t| + |Above(mag, j, k)|) + 16
      invariant Appended(h, a.mem, spare, r.handle)
      decreases j
    {
      NextPlace(mag, j - 1, k);
      AboveLength(mag, j, k);
      ghost var h1, s1, t1 := a.mem, r.handle, t + Above(mag, j, k);
      CapBound(h1, s1, t1);
      r := FirstPush(a, r.handle, ZERO + DigitAt(mag, div), t1);
      if !r.Pushed? {
        MoreExhausted(a.mem, 2 * Hdr(h1, s1).cap + 24, most);
        return;
      }
      AppendedTwice(h, h1, a.mem, spare, s1, r.handle);
      assert t1 + [ZERO + DigitAt(mag, div)] == t + Above(mag, j - 1, k);
      PowDown(j - 1);
      div := div / 10;
      j := j - 1;
    }
    PowPositive(j);
    BottomPlace(mag, k);
  }

  lemma PowPositive(j: nat)
    ensures j > 0 ==> Pow10(j - 1) > 0
  {
  }

  lemma BottomPlace(m: nat, k: nat)
    ensures Above(m, 0, k) == Digits(m)
  {
    hide Digits;
    assert m / Pow10(0) == m;
  }

  // The most a run of appends ending at length n can ask malloc for.
  function Request(cap: int, n: int): int { 2 * (cap + 2 * n + 16) + 24 }

  lemma CapBound(h: Bytes, s: int, t: seq<int>)
    requires Str(h, s, t)
    ensures var c, d := Hdr(h, s).cap, NextCap(Hdr(h, s)); 0 <= c && (d <= c || d <= 2 * |t| || d <= 16)
  {
    hide Load, Read;
  }

  lemma {:induction false} AboveLength(m: nat, j: nat, k: nat)
    requires j <= k + 1 && Pow10(k) <= m && m / Pow10(k) < 10
    ensures |Above(m, j, k)| <= |Digits(m)|
  {
    hide Digits;
    if j == 0 {
      assert m / Pow10(0) == m;
    } else if j <= k + 1 {
      AboveLength(m, j - 1, k);
      NextPlace(m, j - 1, k);
    }
  }

  lemma TopPlace(m: nat, k: nat)
    ensures Above(m, k + 1, k) == []
  {
  }

  // string_push_byte with a digit, sign or zero.
  method FirstPush(a: Arena, s: int, b: int, ghost t: seq<int>) returns (r: Pushed)
    requires a.Valid() && Str(a.mem, s, t) && 0 <= b < 256
    modifies a
    ensures a.Valid()
    ensures r.Pushed? ==> Str(a.mem, r.handle, t + [b]) && Hdr(a.mem, r.handle).cap > 0
    ensures r.Pushed? ==> Hdr(a.mem, r.handle).cap == NextCap(Hdr(old(a.mem), s))
    ensures r.Pushed? ==> Appended(old(a.mem), a.mem, Spare(old(a.mem), s), r.handle)
    ensures r.OutOfBounds? ==> Hdr(old(a.mem), s).cap == 0 && |t| >= 16
    ensures r.NoMemory? ==> Exhausted(a.mem, 2 * Hdr(old(a.mem), s).cap + 24)
  {
    hide Text, Spare, Appended, Exhausted, Hdr;
    assert b % 256 == b;
    assert NextCap(Hdr(a.mem, s)) > 0 by { CapGrows(a.mem, s, t); }
    r := PushByte(a, s, b, t);
  }

  lemma CapGrows(h: Bytes, s: int, t: seq<int>)
    requires Str(h, s, t)
    ensures NextCap(Hdr(h, s)) > 0
  {
    hide Load, Read;
  }

  lemma ZeroText()
    ensures Text10(0) == [ZERO]
  {
  }

  // string_push_i64: the same bytes as printI64, for every i64.
  method PushI64(a: Arena, s: int, n: i64, ghost t: seq<int>) returns (r: Pushed)
    requires a.Valid() && Str(a.mem, s, t)
    modifies a
    ensures a.Valid()
    ensures r.Pushed? ==> Str(a.mem, r.handle, t + Text10(n))
    ensures r.Pushed? ==> Appended(old(a.mem), a.mem, Spare(old(a.mem), s), r.handle)
    ensures r.OutOfBounds? ==> Hdr(old(a.mem), s).cap == 0 && |t| >= 16
    ensures r.NoMemory? ==> Exhausted(a.mem, Request(2 * Hdr(old(a.mem), s).cap + 2 * |t| + 16, |t| + |Text10(n)|))
  {
    hide Str, Hdr, Spare, Appended, Exhausted, Magnitude, Digits, NextCap, Pow10;
    ghost var h, spare, cap0 := a.mem, Spare(a.mem, s), Hdr(a.mem, s).cap;
    ghost var most := Request(2 * cap0 + 2 * |t| + 16, |t| + |Text10(n)|);
    CapBound(h, s, t);
    if n == 0 {
      ZeroText();
      r := FirstPush(a, s, ZERO, t);
      if r.NoMemory? { MoreExhausted(a.mem, 2 * cap0 + 24, most); }
      return;
    }
    MagnitudeIs(n);
    var mag := Magnitude(n);
    var div, k := LeadingPower(mag);
    if n < 0 {
      r := FirstPush(a, s, MINUS, t);
      if !r.Pushed? {
        if r.NoMemory? { MoreExhausted(a.mem, 2 * cap0 + 24, most); }
        return;
      }
      ghost var h1, s1 := a.mem, r.handle;
      r := PushDigits(a, r.handle, mag, div, k, t + [MINUS]);
      if r.NoMemory? { MoreExhausted(a.mem, Request(Hdr(h1, s1).cap, |t| + 1 + |Digits(mag)|), most); }
      if r.Pushed? {
        AppendedTwice(h, h1, a.mem, spare, s1, r.handle);
        assert t + [MINUS] + Digits(mag) == t + ([MINUS] + Digits(mag));
      }
    } else {
      r := PushDigits(a, s, mag, div, k, t);
      if r.NoMemory? { MoreExhausted(a.mem, Request(cap0, |t| + |Digits(mag)|), most); }
    }
  }
}
