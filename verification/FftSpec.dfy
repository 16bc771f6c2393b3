/**
 The Q16.16 radix-2 FFT, stage by stage, as functions on buffer contents.

 A signal is the contents of the two i64 buffers.  The loops of both programs are folded
 here one butterfly at a time (`Inner`, `Outer`, `Stages`); lemmas then say what a whole
 stage and the whole swap pass compute, index by index.  `exact` selects between i64
 arithmetic (every operation wraps) and unbounded integers.
 */
module FftSpec {
  import opened Fixed

  datatype Sig = Sig(re: seq<int>, im: seq<int>)

  predicate Sized(x: Sig, n: nat) { |x.re| == n && |x.im| == n }

  predicate SameSize(x: Sig, y: Sig) { |y.re| == |x.re| && |y.im| == |x.im| }

  function At(s: seq<int>, i: int): int { if 0 <= i < |s| then s[i] else 0 }

  function Put(s: seq<int>, i: int, v: int): seq<int> { if 0 <= i < |s| then s[i := v] else s }

  // ----- bit reversal

  // The inner loop that reverses the low b bits of x behind those already in j.
  function RevLoop(x: nat, j: nat, b: nat): nat
    decreases b
  {
    if b == 0 then j else RevLoop(x / 2, 2 * j + x % 2, b - 1)
  }

  // The low b bits of x, reversed.
  function Rev(x: nat, b: nat): nat {
    if b == 0 then 0 else Rev(x / 2, b - 1) + (if x % 2 == 1 then Pow2(b - 1) else 0)
  }

  lemma ShiftIn(j: nat, e: nat, p: nat)
    requires e < 2
    ensures (2 * j + e) * p == j * (2 * p) + (if e == 1 then p else 0)
  {
    if e == 1 {
      assert (2 * j + 1) * p == (2 * j) * p + p;
    }
  }

  lemma {:induction false} RevLoopIsRev(x: nat, j: nat, b: nat)
    ensures RevLoop(x, j, b) == j * Pow2(b) + Rev(x, b)
    decreases b
  {
    if b > 0 {
      assert Pow2(b) == 2 * Pow2(b - 1);
      hide Pow2;
      RevLoopIsRev(x / 2, 2 * j + x % 2, b - 1);
      ShiftIn(j, x % 2, Pow2(b - 1));
    }
  }

  lemma {:induction false} RevInRange(x: nat, b: nat)
    ensures Rev(x, b) < Pow2(b)
  {
    if b > 0 {
      RevInRange(x / 2, b - 1);
    }
  }

  // Reversal seen from the other end: the top bit becomes the lowest.
  lemma {:induction false} RevTop(t: nat, l: nat, b: nat)
    requires b > 0 && t < 2 && l < Pow2(b - 1)
    ensures Rev(l + (if t == 1 then Pow2(b - 1) else 0), b) == 2 * Rev(l, b - 1) + t
  {
    if b > 1 {
      var y := l + (if t == 1 then Pow2(b - 1) else 0);
      assert y % 2 == l % 2 && y / 2 == l / 2 + (if t == 1 then Pow2(b - 2) else 0);
      RevTop(t, l / 2, b - 1);
    }
  }

  // Reversing twice gives the index back.
  lemma {:induction false} RevInvolution(x: nat, b: nat)
    requires x < Pow2(b)
    ensures Rev(Rev(x, b), b) == x
  {
    if b > 0 {
      RevInvolution(x / 2, b - 1);
      RevInRange(x / 2, b - 1);
      RevTop(x % 2, Rev(x / 2, b - 1), b);
    }
  }

  // The array after the swap pass has visited indices 0..i-1.
  function SwapPass(s: seq<int>, b: nat, i: nat): (r: seq<int>)
    ensures |r| == |s|
  {
    if i == 0 then s
    else
      var t := SwapPass(s, b, i - 1);
      var j := Rev(i - 1, b);
      if j > i - 1 then Put(Put(t, i - 1, At(t, j)), j, At(t, i - 1)) else t
  }

  lemma {:induction false} SwapPassAt(s: seq<int>, b: nat, i: nat, k: nat)
    requires |s| == Pow2(b) && i <= |s| && k < |s|
    ensures |SwapPass(s, b, i)| == |s|
    ensures Rev(k, b) < |s|
    ensures SwapPass(s, b, i)[k] == if k < i || Rev(k, b) < i then s[Rev(k, b)] else s[k]
  {
    hide Rev, Pow2;
    RevInRange(k, b);
    RevInvolution(k, b);
    if i > 0 {
      var j := Rev(i - 1, b);
      RevInRange(i - 1, b);
      RevInvolution(i - 1, b);
      SwapPassAt(s, b, i - 1, k);
      SwapPassAt(s, b, i - 1, j);
      SwapPassAt(s, b, i - 1, i - 1);
    }
  }

  // The whole pass is exactly the bit-reversal permutation, and is its own inverse.
  lemma SwapPassIsBitReversal(s: seq<int>, b: nat)
    requires |s| == Pow2(b)
    ensures |SwapPass(s, b, |s|)| == |s|
    ensures forall k | 0 <= k < |s| :: Rev(k, b) < |s| && SwapPass(s, b, |s|)[k] == s[Rev(k, b)]
    ensures SwapPass(SwapPass(s, b, |s|), b, |s|) == s
  {
    var t := SwapPass(s, b, |s|);
    SwapPassAt(s, b, |s|, 0);
    forall k | 0 <= k < |s| ensures Rev(k, b) < |s| && t[k] == s[Rev(k, b)] {
      SwapPassAt(s, b, |s|, k);
    }
    var u := SwapPass(t, b, |s|);
    SwapPassAt(t, b, |s|, 0);
    forall k | 0 <= k < |s| ensures u[k] == s[k] {
      SwapPassAt(t, b, |s|, k);
      RevInRange(k, b);
      RevInvolution(k, b);
    }
  }

  function BitReverse(x: Sig, b: nat): Sig {
    Sig(SwapPass(x.re, b, Pow2(b)), SwapPass(x.im, b, Pow2(b)))
  }

  // ----- one butterfly

  function W(x: int, exact: bool): int { if exact then x else ToI64(x) }

  // The real part of (W * x) >> 16, each product shifted on its own.
  function TwistRe(wr: int, wi: int, br: int, bi: int, exact: bool): int {
    W(Shr16(W(wr * br, exact)) - Shr16(W(wi * bi, exact)), exact)
  }

  function TwistIm(wr: int, wi: int, br: int, bi: int, exact: bool): int {
    W(Shr16(W(wr * bi, exact)) + Shr16(W(wi * br, exact)), exact)
  }

  // The butterfly on cells a and b.
  function Fly(x: Sig, a: int, b: int, wr: int, wi: int, exact: bool): (y: Sig)
    ensures SameSize(x, y)
  {
    var tr := TwistRe(wr, wi, At(x.re, b), At(x.im, b), exact);
    var ti := TwistIm(wr, wi, At(x.re, b), At(x.im, b), exact);
    var ur, ui := At(x.re, a), At(x.im, a);
    Sig(Put(Put(x.re, a, W(ur + tr, exact)), b, W(ur - tr, exact)),
        Put(Put(x.im, a, W(ui + ti, exact)), b, W(ui - ti, exact)))
  }

  // The same for the twiddle (65536, 0): an addition and a subtraction.
  function PlainFly(x: Sig, a: int, b: int, exact: bool): (y: Sig)
    ensures SameSize(x, y)
  {
    var br, bi := At(x.re, b), At(x.im, b);
    var ur, ui := At(x.re, a), At(x.im, a);
    Sig(Put(Put(x.re, a, W(ur + br, exact)), b, W(ur - br, exact)),
        Put(Put(x.im, a, W(ui + bi, exact)), b, W(ui - bi, exact)))
  }

  // ----- a stage as the nested loops run it

  // The twiddle that butterfly t of a block uses.
  function TwRe(tw: seq<int>, t: nat, step: nat): int { At(tw, 2 * (t * step)) }

  function TwIm(tw: seq<int>, t: nat, step: nat): int { At(tw, 2 * (t * step) + 1) }

  // Where block p starts.
  function BlockStart(p: nat, half: nat): nat { p * (2 * half) }

  // After jj butterflies of the block at start.
  function Inner(x: Sig, tw: seq<int>, start: nat, half: nat, step: nat, jj: nat, exact: bool): (y: Sig)
    ensures SameSize(x, y)
  {
    if jj == 0 then x
    else
      Fly(Inner(x, tw, start, half, step, jj - 1, exact), start + jj - 1, start + jj - 1 + half,
          TwRe(tw, jj - 1, step), TwIm(tw, jj - 1, step), exact)
  }

  // After q blocks.
  function Outer(x: Sig, tw: seq<int>, half: nat, step: nat, q: nat, exact: bool): (y: Sig)
    ensures SameSize(x, y)
  {
    if q == 0 then x
    else Inner(Outer(x, tw, half, step, q - 1, exact), tw, BlockStart(q - 1, half), half, step, half, exact)
  }

  // Stage k works on blocks of length 2^k.
  function Stage(x: Sig, tw: seq<int>, logn: nat, k: nat, exact: bool): (y: Sig)
    ensures SameSize(x, y)
  {
    if 1 <= k <= logn then Outer(x, tw, Pow2(k - 1), Pow2(logn - k), Pow2(logn - k), exact) else x
  }

  // The peeled first stage: blocks of two, no multiplication.
  function PlainStage(x: Sig, q: nat, exact: bool): (y: Sig)
    ensures SameSize(x, y)
  {
    if q == 0 then x else PlainFly(PlainStage(x, q - 1, exact), 2 * (q - 1), 2 * (q - 1) + 1, exact)
  }

  // Stages 1..k, as the reference runs them.
  function Stages(x: Sig, tw: seq<int>, logn: nat, k: nat, exact: bool): (y: Sig)
    ensures SameSize(x, y)
  {
    if k == 0 then x else Stage(Stages(x, tw, logn, k - 1, exact), tw, logn, k, exact)
  }

  // Stages 1..k with the first one peeled, as the kernel runs them.
  function PeeledStages(x: Sig, tw: seq<int>, logn: nat, k: nat, exact: bool): (y: Sig)
    ensures SameSize(x, y)
  {
    if k <= 1 then PlainStage(x, Pow2(logn) / 2, exact)
    else Stage(PeeledStages(x, tw, logn, k - 1, exact), tw, logn, k, exact)
  }

  function Transform(x: Sig, tw: seq<int>, logn: nat, exact: bool): Sig {
    Stages(BitReverse(x, logn), tw, logn, logn, exact)
  }

  function PeeledTransform(x: Sig, tw: seq<int>, logn: nat, exact: bool): Sig {
    PeeledStages(BitReverse(x, logn), tw, logn, logn, exact)
  }
}
