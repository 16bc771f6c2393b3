/**
 The index-based reference FFT, in place on two arrays, and the generator of its inputs.
 */
module FftReference {
  import opened Fixed
  import opened FftSpec
  import opened FftStage

  // The linear congruential generator behind the benchmark's signal.
  class Lcg {
    var state: u64

    constructor (seed: u64)
      ensures state == seed
    {
      state := seed;
    }

    method NextU32() returns (r: int)
      modifies this
      ensures state == U64(old(state) * 1664525 + 1013904223)
      ensures r == state / TWO16 % TWO32
    {
      state := U64(state * 1664525 + 1013904223);
      r := state / TWO16 % TWO32;
    }

    // Every sample is in [-2^18, 2^18).
    method NextQ16() returns (r: int)
      modifies this
      ensures state == U64(old(state) * 1664525 + 1013904223)
      ensures r == ToI32(state / TWO16) / 0x2000
      ensures -0x4_0000 <= r < 0x4_0000
    {
      hide U64, ToI32;
      var u := NextU32();
      LowWord(state / TWO16);
      SampleRange(ToI32(u));
      r := ToI32(u) / 0x2000;
    }
  }

  lemma LowWord(x: int)
    ensures ToI32(x % TWO32) == ToI32(x)
  {
  }

  lemma SampleRange(x: i32)
    ensures -0x4_0000 <= x / 0x2000 < 0x4_0000
  {
  }

  // The reversed index, one bit per trip.
  method ReverseBits(i: nat, logn: nat) returns (j: nat)
    ensures j == Rev(i, logn)
  {
    var x, b := i, 0;
    j := 0;
    while b < logn
      invariant b <= logn
      invariant RevLoop(x, j, logn - b) == RevLoop(i, 0, logn)
    {
      j := 2 * j + x % 2;
      x := x / 2;
      b := b + 1;
    }
    RevLoopIsRev(i, 0, logn);
  }

  // The swap pass over both buffers.
  method SwapAll(re: array<int>, im: array<int>, logn: nat)
    requires re != im && re.Length == im.Length == Pow2(logn)
    modifies re, im
    ensures Sig(re[..], im[..]) == BitReverse(Sig(old(re[..]), old(im[..])), logn)
  {
    hide Rev, Pow2;
    ghost var r0, i0 := re[..], im[..];
    var i := 0;
    while i < re.Length
      invariant i <= re.Length
      invariant re[..] == SwapPass(r0, logn, i) && im[..] == SwapPass(i0, logn, i)
    {
      var j := ReverseBits(i, logn);
      RevInRange(i, logn);
      if j > i {
        re[i], re[j] := re[j], re[i];
        im[i], im[j] := im[j], im[i];
      }
      i := i + 1;
    }
  }

  // One butterfly on the arrays.
  method FlyInPlace(re: array<int>, im: array<int>, a: nat, b: nat, wr: int, wi: int)
    requires re != im && re.Length == im.Length && a < b < re.Length
    modifies re, im
    ensures Sig(re[..], im[..]) == Fly(Sig(old(re[..]), old(im[..])), a, b, wr, wi, false)
  {
    hide ToI64;
    var xbr, xbi := re[b], im[b];
    var trr := ToI64(Shr16(ToI64(wr * xbr)) - Shr16(ToI64(wi * xbi)));
    var tii := ToI64(Shr16(ToI64(wr * xbi)) + Shr16(ToI64(wi * xbr)));
    var uur, uui := re[a], im[a];
    re[a] := ToI64(uur + trr);
    im[a] := ToI64(uui + tii);
    re[b] := ToI64(uur - trr);
    im[b] := ToI64(uui - tii);
  }

  // The size of a transform whose blocks have half butterflies and whose stride is step.
  function Span(half: nat, step: nat): nat { 2 * half * step }

  lemma TwiddleIndex(jj: nat, half: nat, step: nat, n: nat)
    requires jj < half && step > 0 && Span(half, step) == n
    ensures 2 * (jj * step) + 1 < n
  {
    MulMonotone(jj + 1, half, step);
    assert (jj + 1) * step == jj * step + step;
    assert 2 * half * step == 2 * (half * step);
  }

  // The butterflies of one block.
  method Block(re: array<int>, im: array<int>, tw: seq<int>, start: nat, half: nat, step: nat)
    requires re != im && re.Length == im.Length && start + 2 * half <= re.Length
    requires step > 0 && |tw| == Span(half, step)
    modifies re, im
    ensures Sig(re[..], im[..]) == Inner(Sig(old(re[..]), old(im[..])), tw, start, half, step, half, false)
  {
    hide Fly, Span;
    ghost var x := Sig(re[..], im[..]);
    var jj, k := 0, 0;
    while jj < half
      invariant jj <= half && k == jj * step
      invariant Sig(re[..], im[..]) == Inner(x, tw, start, half, step, jj, false)
    {
      TwiddleIndex(jj, half, step, |tw|);
      FlyInPlace(re, im, start + jj, start + jj + half, tw[2 * k], tw[2 * k + 1]);
      assert (jj + 1) * step == jj * step + step;
      jj := jj + 1;
      k := k + step;
    }
  }

  // All blocks of one stage.
  method StageInPlace(re: array<int>, im: array<int>, tw: seq<int>, logn: nat, ghost k: nat, length: nat)
    requires re != im && re.Length == im.Length == |tw| == Pow2(logn)
    requires 1 <= k <= logn && length == Pow2(k)
    modifies re, im
    ensures Sig(re[..], im[..]) == Stage(Sig(old(re[..]), old(im[..])), tw, logn, k, false)
  {
    var n := re.Length;
    var half := length / 2;
    var step := n / length;
    StageShape(logn, k);
    assert half == Pow2(k - 1) && step == Pow2(logn - k) && n == Span(half, step);
    BlockZero(half);
    hide Inner, Pow2, BlockStart, Span;
    ghost var x := Sig(re[..], im[..]);
    var start := 0;
    ghost var q := 0;
    while start < n
      invariant q <= step && start == BlockStart(q, half)
      invariant Sig(re[..], im[..]) == Outer(x, tw, half, step, q, false)
      decreases step - q
    {
      NextBlock(q, half, step, n);
      Block(re, im, tw, start, half, step);
      start := start + length;
      q := q + 1;
    }
    LastBlock(q, half, step, n);
  }

  // Block lengths and strides are powers of two.
  lemma StageShape(logn: nat, k: nat)
    requires 1 <= k <= logn
    ensures Pow2(k) / 2 == Pow2(k - 1) && 2 * Pow2(k - 1) == Pow2(k)
    ensures Pow2(logn) / Pow2(k) == Pow2(logn - k)
    ensures Span(Pow2(k - 1), Pow2(logn - k)) == Pow2(logn)
    ensures BlockStart(Pow2(logn - k), Pow2(k - 1)) == Pow2(logn)
  {
    Pow2Add(k, logn - k);
    Pow2Add(logn - k, k);
    QuotientOfProduct(Pow2(logn - k), Pow2(k));
  }

  lemma QuotientOfProduct(a: nat, d: nat)
    requires d > 0
    ensures (a * d) / d == a
  {
    QuotientIs(a * d, d, a, 0);
  }

  lemma BlockZero(half: nat)
    ensures BlockStart(0, half) == 0
  {
  }

  lemma NextBlock(q: nat, half: nat, step: nat, n: nat)
    requires q <= step && BlockStart(step, half) == n && BlockStart(q, half) < n
    ensures q < step && BlockStart(q + 1, half) == BlockStart(q, half) + 2 * half <= n
  {
    assert (q + 1) * (2 * half) == q * (2 * half) + 2 * half;
    hide BlockStart;
    BlocksApart(q, step, half);
  }

  lemma LastBlock(q: nat, half: nat, step: nat, n: nat)
    requires half > 0 && q <= step && BlockStart(step, half) == n && BlockStart(q, half) >= n
    ensures q == step
  {
    hide BlockStart;
    if q < step {
      BlocksApart(q, step, half);
      assert false;
    }
  }

  // The reference transform, for any power-of-two size.
  method RefFft(re: array<int>, im: array<int>, tw: seq<int>, logn: nat)
    requires re != im && re.Length == im.Length == |tw| == Pow2(logn)
    modifies re, im
    ensures Sig(re[..], im[..]) == Transform(Sig(old(re[..]), old(im[..])), tw, logn, false)
  {
    hide BitReverse, Stage;
    ghost var x := Sig(re[..], im[..]);
    SwapAll(re, im, logn);
    ghost var y := Sig(re[..], im[..]);
    var length := 2;
    ghost var k := 1;
    while length <= re.Length
      invariant 1 <= k <= logn + 1 && length == Pow2(k)
      invariant Sig(re[..], im[..]) == Stages(y, tw, logn, k - 1, false)
      decreases logn + 1 - k
    {
      Pow2Grows(k, logn);
      StageInPlace(re, im, tw, logn, k, length);
      length := 2 * length;
      k := k + 1;
    }
    Pow2Grows(logn, k);
  }
}
