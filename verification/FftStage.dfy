/**
 What one FFT stage computes: every index is in exactly one butterfly, and every butterfly
 sees the stage's input.
 */
module FftStage {
  import opened Fixed
  import opened FftSpec

  // y's cells a and b are the butterfly of x's.
  ghost predicate FlyAt(x: Sig, y: Sig, a: int, b: int, wr: int, wi: int, exact: bool) {
    && 0 <= a < |x.re| == |y.re| && 0 <= b < |x.re| && 0 <= a < |x.im| == |y.im| && 0 <= b < |x.im|
    && var tr, ti := TwistRe(wr, wi, x.re[b], x.im[b], exact), TwistIm(wr, wi, x.re[b], x.im[b], exact);
       && y.re[a] == W(x.re[a] + tr, exact) && y.im[a] == W(x.im[a] + ti, exact)
       && y.re[b] == W(x.re[a] - tr, exact) && y.im[b] == W(x.im[a] - ti, exact)
  }

  ghost predicate SameCell(x: Sig, y: Sig, i: int) {
    0 <= i < |x.re| == |y.re| && 0 <= i < |x.im| == |y.im| && y.re[i] == x.re[i] && y.im[i] == x.im[i]
  }

  // Butterfly t of the block at start.
  ghost predicate BlockFly(x: Sig, y: Sig, tw: seq<int>, start: nat, half: nat, step: nat, t: nat, exact: bool) {
    FlyAt(x, y, start + t, start + t + half, TwRe(tw, t, step), TwIm(tw, t, step), exact)
  }

  // Butterfly t of block p.
  ghost predicate StageFly(x: Sig, y: Sig, tw: seq<int>, half: nat, step: nat, p: nat, t: nat, exact: bool) {
    BlockFly(x, y, tw, BlockStart(p, half), half, step, t, exact)
  }

  lemma FlyDoes(x: Sig, a: int, b: int, wr: int, wi: int, exact: bool, n: nat)
    requires Sized(x, n) && 0 <= a < n && 0 <= b < n && a != b
    ensures FlyAt(x, Fly(x, a, b, wr, wi, exact), a, b, wr, wi, exact)
    ensures forall i | 0 <= i < n && i != a && i != b :: SameCell(x, Fly(x, a, b, wr, wi, exact), i)
  {
    hide TwistRe, TwistIm, W;
  }

  // A butterfly that read unchanged cells is a butterfly of the original.
  lemma FlyFrom(x: Sig, x': Sig, y: Sig, a: int, b: int, wr: int, wi: int, exact: bool)
    requires SameCell(x, x', a) && SameCell(x, x', b) && FlyAt(x', y, a, b, wr, wi, exact)
    ensures FlyAt(x, y, a, b, wr, wi, exact)
  {
    hide TwistRe, TwistIm, W;
  }

  // A butterfly whose cells are then left alone stays one.
  lemma FlyKept(x: Sig, y: Sig, y': Sig, a: int, b: int, wr: int, wi: int, exact: bool)
    requires FlyAt(x, y, a, b, wr, wi, exact) && SameCell(y, y', a) && SameCell(y, y', b)
    ensures FlyAt(x, y', a, b, wr, wi, exact)
  {
    hide TwistRe, TwistIm, W;
  }

  // The first jj butterflies of the block at start are done and nothing else has changed.
  ghost predicate BlockDone(x: Sig, y: Sig, tw: seq<int>, start: nat, half: nat, step: nat, jj: nat, exact: bool, n: nat) {
    && (forall t | 0 <= t < jj :: BlockFly(x, y, tw, start, half, step, t, exact))
    && (forall i | 0 <= i < n && !(start <= i < start + jj) && !(start + half <= i < start + half + jj) :: SameCell(x, y, i))
  }

  // Butterfly jj takes a block from jj butterflies done to jj + 1.
  lemma BlockStep(x: Sig, x': Sig, y: Sig, tw: seq<int>, start: nat, half: nat, step: nat, jj: nat, exact: bool, n: nat)
    requires Sized(x, n) && Sized(x', n) && start + 2 * half <= n && jj < half
    requires BlockDone(x, x', tw, start, half, step, jj, exact, n)
    requires y == Fly(x', start + jj, start + jj + half, TwRe(tw, jj, step), TwIm(tw, jj, step), exact)
    ensures BlockDone(x, y, tw, start, half, step, jj + 1, exact, n)
  {
    hide Fly, FlyAt, TwRe, TwIm, SameCell;
    var a, b, wr, wi := start + jj, start + jj + half, TwRe(tw, jj, step), TwIm(tw, jj, step);
    FlyDoes(x', a, b, wr, wi, exact, n);
    assert SameCell(x, x', a) && SameCell(x, x', b);
    FlyFrom(x, x', y, a, b, wr, wi, exact);
    forall t | 0 <= t < jj + 1 ensures BlockFly(x, y, tw, start, half, step, t, exact) {
      if t < jj {
        assert BlockFly(x, x', tw, start, half, step, t, exact);
        assert SameCell(x', y, start + t) && SameCell(x', y, start + t + half);
        FlyKept(x, x', y, start + t, start + t + half, TwRe(tw, t, step), TwIm(tw, t, step), exact);
      }
    }
    forall i | 0 <= i < n && !(start <= i < start + jj + 1) && !(start + half <= i < start + half + jj + 1)
      ensures SameCell(x, y, i)
    {
      SameTrans(x, x', y, i);
    }
  }

  lemma SameTrans(x: Sig, y: Sig, z: Sig, i: int)
    requires SameCell(x, y, i) && SameCell(y, z, i)
    ensures SameCell(x, z, i)
  {
  }

  lemma {:induction false} InnerAt(x: Sig, tw: seq<int>, start: nat, half: nat, step: nat, jj: nat, exact: bool, n: nat)
    requires Sized(x, n) && start + 2 * half <= n && jj <= half
    ensures BlockDone(x, Inner(x, tw, start, half, step, jj, exact), tw, start, half, step, jj, exact, n)
  {
    hide Fly, TwRe, TwIm, FlyAt;
    if jj > 0 {
      InnerAt(x, tw, start, half, step, jj - 1, exact, n);
      BlockStep(x, Inner(x, tw, start, half, step, jj - 1, exact), Inner(x, tw, start, half, step, jj, exact),
                tw, start, half, step, jj - 1, exact, n);
    }
  }

  lemma BlocksApart(p: nat, q: nat, half: nat)
    requires p < q
    ensures BlockStart(p, half) + 2 * half <= BlockStart(q, half)
  {
    var d := 2 * half;
    assert (p + 1) * d == p * d + d;
    MulMonotone(p + 1, q, d);
  }

  // The first q blocks are done and nothing after them has changed.
  ghost predicate BlocksDone(x: Sig, y: Sig, tw: seq<int>, half: nat, step: nat, q: nat, exact: bool, n: nat) {
    && (forall p, t | 0 <= p < q && 0 <= t < half :: StageFly(x, y, tw, half, step, p, t, exact))
    && (forall i | BlockStart(q, half) <= i < n :: SameCell(x, y, i))
  }

  lemma BlocksStep(x: Sig, x': Sig, y: Sig, tw: seq<int>, half: nat, step: nat, q: nat, exact: bool, n: nat)
    requires Sized(x, n) && Sized(x', n) && BlockStart(q + 1, half) <= n
    requires BlocksDone(x, x', tw, half, step, q, exact, n)
    requires BlockDone(x', y, tw, BlockStart(q, half), half, step, half, exact, n)
    ensures BlocksDone(x, y, tw, half, step, q + 1, exact, n)
  {
    hide BlockStart, FlyAt, TwRe, TwIm, SameCell;
    BlocksApart(q, q + 1, half);
    forall p, t | 0 <= p < q + 1 && 0 <= t < half ensures StageFly(x, y, tw, half, step, p, t, exact) {
      var s, wr, wi := BlockStart(p, half), TwRe(tw, t, step), TwIm(tw, t, step);
      if p < q {
        BlocksApart(p, q, half);
        assert StageFly(x, x', tw, half, step, p, t, exact);
        assert SameCell(x', y, s + t) && SameCell(x', y, s + t + half);
        FlyKept(x, x', y, s + t, s + t + half, wr, wi, exact);
      } else {
        assert BlockFly(x', y, tw, s, half, step, t, exact);
        assert SameCell(x, x', s + t) && SameCell(x, x', s + t + half);
        FlyFrom(x, x', y, s + t, s + t + half, wr, wi, exact);
      }
    }
    forall i | BlockStart(q + 1, half) <= i < n ensures SameCell(x, y, i) {
      SameTrans(x, x', y, i);
    }
  }

  lemma {:induction false} OuterAt(x: Sig, tw: seq<int>, half: nat, step: nat, q: nat, exact: bool, n: nat)
    requires Sized(x, n) && BlockStart(q, half) <= n
    ensures BlocksDone(x, Outer(x, tw, half, step, q, exact), tw, half, step, q, exact, n)
  {
    hide BlockStart, Inner, FlyAt;
    if q > 0 {
      BlocksApart(q - 1, q, half);
      OuterAt(x, tw, half, step, q - 1, exact, n);
      var x' := Outer(x, tw, half, step, q - 1, exact);
      InnerAt(x', tw, BlockStart(q - 1, half), half, step, half, exact, n);
      BlocksStep(x, x', Outer(x, tw, half, step, q, exact), tw, half, step, q - 1, exact, n);
    }
  }

  lemma Blocks(logn: nat, k: nat)
    requires 1 <= k <= logn
    ensures BlockStart(Pow2(logn - k), Pow2(k - 1)) == Pow2(logn)
  {
    Pow2Add(logn - k, k);
  }

  // Stage k is 2^(logn-k) blocks of 2^(k-1) butterflies, every one computed from the stage's
  // input.
  lemma StageIsButterflies(x: Sig, tw: seq<int>, logn: nat, k: nat, exact: bool)
    requires Sized(x, Pow2(logn)) && 1 <= k <= logn
    ensures BlockStart(Pow2(logn - k), Pow2(k - 1)) == Pow2(logn)
    ensures BlocksDone(x, Stage(x, tw, logn, k, exact), tw, Pow2(k - 1), Pow2(logn - k), Pow2(logn - k), exact, Pow2(logn))
  {
    hide BlockStart, Outer, StageFly, Pow2;
    Blocks(logn, k);
    OuterAt(x, tw, Pow2(k - 1), Pow2(logn - k), Pow2(logn - k), exact, Pow2(logn));
  }

  // The index of cell (block p, butterfly t, upper or lower half).
  function CellOf(p: nat, t: nat, upper: bool, half: nat): nat {
    BlockStart(p, half) + t + (if upper then half else 0)
  }

  // The start/jj loops of a stage reach every index, once.
  lemma EveryIndexInOneButterfly(i: nat, half: nat, q: nat) returns (p: nat, t: nat, upper: bool)
    requires half > 0 && i < BlockStart(q, half)
    ensures p < q && t < half && i == CellOf(p, t, upper, half)
    ensures forall p', t', upper' | 0 <= t' < half && 0 <= p' && i == CellOf(p', t', upper', half) ::
              p' == p && t' == t && upper' == upper
  {
    p := i / (2 * half);
    var r := i % (2 * half);
    assert i == p * (2 * half) + r;
    upper := r >= half;
    t := if upper then r - half else r;
    if p >= q {
      MulMonotone(q, p, 2 * half);
      assert false;
    }
    forall p', t', upper' | 0 <= t' < half && 0 <= p' && i == CellOf(p', t', upper', half)
      ensures p' == p && t' == t && upper' == upper
    {
      var r' := t' + (if upper' then half else 0);
      SameQuotient(p, r, p', r', 2 * half);
    }
  }
}
