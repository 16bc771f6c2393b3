/**
 The optimised FFT kernel: the same transform driven by running byte addresses, with the
 first stage peeled.

 Memory is modelled by the i64 word that a load at each byte address returns.  The three
 buffers do not overlap and every access is at a multiple of eight from a buffer's base, so
 no access ever touches half of another word.
 */
module FftKernel {
  import opened Fixed
  import opened FftSpec
  import opened FftTheorems
  import opened FftReference

  class Memory {
    var words: map<int, int>

    constructor (m: map<int, int>)
      ensures words == m
    {
      words := m;
    }

    method Load(a: int) returns (v: int)
      requires a in words
      ensures v == words[a]
    {
      v := words[a];
    }

    method Store(a: int, v: int)
      modifies this
      ensures words == old(words)[a := v]
    {
      words := words[a := v];
    }
  }

  // The contents of an n-word buffer.
  function View(w: map<int, int>, base: int, n: nat): (s: seq<int>)
    ensures |s| == n
  {
    seq(n, i => if base + 8 * i in w then w[base + 8 * i] else 0)
  }

  predicate Mapped(w: map<int, int>, base: int, n: nat) {
    forall i | 0 <= i < n :: base + 8 * i in w
  }

  predicate Apart(a: int, b: int, n: nat) {
    a + 8 * n <= b || b + 8 * n <= a
  }

  // The three buffers, all of n words.
  datatype Bufs = Bufs(re: int, im: int, tw: int, n: nat)

  ghost predicate Ready(w: map<int, int>, b: Bufs, tw: seq<int>) {
    && Mapped(w, b.re, b.n) && Mapped(w, b.im, b.n) && Mapped(w, b.tw, b.n)
    && Apart(b.re, b.im, b.n) && Apart(b.re, b.tw, b.n) && Apart(b.im, b.tw, b.n)
    && View(w, b.tw, b.n) == tw
  }

  ghost function SigOf(w: map<int, int>, b: Bufs): Sig {
    Sig(View(w, b.re, b.n), View(w, b.im, b.n))
  }

  // Storing into one buffer changes that cell of that buffer, and no other buffer.
  lemma StoreRe(w: map<int, int>, b: Bufs, tw: seq<int>, i: nat, v: int)
    requires Ready(w, b, tw) && i < b.n
    ensures var w' := w[b.re + 8 * i := v];
            Ready(w', b, tw) && SigOf(w', b) == Sig(Put(SigOf(w, b).re, i, v), SigOf(w, b).im)
  {
    var w' := w[b.re + 8 * i := v];
    assert View(w', b.re, b.n) == View(w, b.re, b.n)[i := v];
    assert View(w', b.im, b.n) == View(w, b.im, b.n);
    assert View(w', b.tw, b.n) == View(w, b.tw, b.n);
  }

  lemma StoreIm(w: map<int, int>, b: Bufs, tw: seq<int>, i: nat, v: int)
    requires Ready(w, b, tw) && i < b.n
    ensures var w' := w[b.im + 8 * i := v];
            Ready(w', b, tw) && SigOf(w', b) == Sig(SigOf(w, b).re, Put(SigOf(w, b).im, i, v))
  {
    var w' := w[b.im + 8 * i := v];
    assert View(w', b.im, b.n) == View(w, b.im, b.n)[i := v];
    assert View(w', b.re, b.n) == View(w, b.re, b.n);
    assert View(w', b.tw, b.n) == View(w, b.tw, b.n);
  }

  // Four stores that complete a butterfly on cells i and j.
  lemma StoreFour(w: map<int, int>, b: Bufs, tw: seq<int>, i: nat, j: nat, v: (int, int, int, int))
    requires Ready(w, b, tw) && i < b.n && j < b.n
    ensures var w' := w[b.re + 8 * i := v.0][b.im + 8 * i := v.1][b.re + 8 * j := v.2][b.im + 8 * j := v.3];
            var x := SigOf(w, b);
            && Ready(w', b, tw)
            && SigOf(w', b) == Sig(Put(Put(x.re, i, v.0), j, v.2), Put(Put(x.im, i, v.1), j, v.3))
  {
    hide Ready, SigOf, Put;
    var w1 := w[b.re + 8 * i := v.0];
    StoreRe(w, b, tw, i, v.0);
    var w2 := w1[b.im + 8 * i := v.1];
    StoreIm(w1, b, tw, i, v.1);
    var w3 := w2[b.re + 8 * j := v.2];
    StoreRe(w2, b, tw, j, v.2);
    StoreIm(w3, b, tw, j, v.3);
  }

  // Loads read the view.
  lemma Loads(w: map<int, int>, b: Bufs, tw: seq<int>, i: nat)
    requires Ready(w, b, tw) && i < b.n
    ensures b.re + 8 * i in w && w[b.re + 8 * i] == At(SigOf(w, b).re, i)
    ensures b.im + 8 * i in w && w[b.im + 8 * i] == At(SigOf(w, b).im, i)
    ensures b.tw + 8 * i in w && w[b.tw + 8 * i] == At(tw, i)
  {
    assert View(w, b.tw, b.n)[i] == w[b.tw + 8 * i];
  }

  // The swap pass, address by address.
  method SwapAll(mem: Memory, ghost b: Bufs, ghost tw: seq<int>, re: int, im: int, logn: nat, n: nat)
    requires b.re == re && b.im == im && b.n == n == Pow2(logn) && Ready(mem.words, b, tw)
    modifies mem
    ensures Ready(mem.words, b, tw)
    ensures SigOf(mem.words, b) == BitReverse(old(SigOf(mem.words, b)), logn)
  {
    hide Ready, SigOf, Pow2, Rev;
    ghost var x := SigOf(mem.words, b);
    var i := 0;
    while i < n
      invariant i <= n && Ready(mem.words, b, tw)
      invariant SigOf(mem.words, b) == Sig(SwapPass(x.re, logn, i), SwapPass(x.im, logn, i))
    {
      var j := ReverseBits(i, logn);
      RevInRange(i, logn);
      if j > i {
        SwapWords(mem, b, tw, re, im, i, j);
      }
      i := i + 1;
    }
  }

  method SwapWords(mem: Memory, ghost b: Bufs, ghost tw: seq<int>, re: int, im: int, i: nat, j: nat)
    requires b.re == re && b.im == im && i < j < b.n && Ready(mem.words, b, tw)
    modifies mem
    ensures Ready(mem.words, b, tw)
    ensures var x := old(SigOf(mem.words, b));
            SigOf(mem.words, b) == Sig(Put(Put(x.re, i, At(x.re, j)), j, At(x.re, i)),
                                       Put(Put(x.im, i, At(x.im, j)), j, At(x.im, i)))
  {
    hide Ready, SigOf, Put;
    var ai, aj := re + i * 8, re + j * 8;
    Loads(mem.words, b, tw, i);
    Loads(mem.words, b, tw, j);
    var tr := mem.Load(ai);
    var vr := mem.Load(aj);
    StoreRe(mem.words, b, tw, i, vr);
    mem.Store(ai, vr);
    StoreRe(mem.words, b, tw, j, tr);
    mem.Store(aj, tr);
    var bi, bj := im + i * 8, im + j * 8;
    Loads(mem.words, b, tw, i);
    Loads(mem.words, b, tw, j);
    var ti := mem.Load(bi);
    var vi := mem.Load(bj);
    StoreIm(mem.words, b, tw, i, vi);
    mem.Store(bi, vi);
    StoreIm(mem.words, b, tw, j, ti);
    mem.Store(bj, ti);
  }

  // The peeled stage: pairs sixteen bytes apart, added and subtracted.
  method PlainStageAddr(mem: Memory, ghost b: Bufs, ghost tw: seq<int>, re: int, im: int, n: nat)
    requires b.re == re && b.im == im && b.n == n && n % 2 == 0 && Ready(mem.words, b, tw)
    modifies mem
    ensures Ready(mem.words, b, tw)
    ensures SigOf(mem.words, b) == PlainStage(old(SigOf(mem.words, b)), n / 2, false)
  {
    hide Ready, SigOf, ToI64, PlainFly;
    ghost var x := SigOf(mem.words, b);
    var are, aim := re, im;
    var reEnd := re + n * 8;
    ghost var q := 0;
    while are < reEnd
      invariant q <= n / 2 && are == re + 16 * q && aim == im + 16 * q && Ready(mem.words, b, tw)
      invariant SigOf(mem.words, b) == PlainStage(x, q, false)
      decreases n / 2 - q
    {
      PlainPair(mem, b, tw, are, aim, 2 * q);
      are := are + 16;
      aim := aim + 16;
      q := q + 1;
    }
  }

  method PlainPair(mem: Memory, ghost b: Bufs, ghost tw: seq<int>, are: int, aim: int, ghost a: nat)
    requires are == b.re + 8 * a && aim == b.im + 8 * a && a + 1 < b.n && Ready(mem.words, b, tw)
    modifies mem
    ensures Ready(mem.words, b, tw)
    ensures SigOf(mem.words, b) == PlainFly(old(SigOf(mem.words, b)), a, a + 1, false)
  {
    hide Ready, SigOf, ToI64, Put;
    var bre, bim := are + 8, aim + 8;
    Loads(mem.words, b, tw, a);
    Loads(mem.words, b, tw, a + 1);
    var xbr := mem.Load(bre);
    var xbi := mem.Load(bim);
    var uur := mem.Load(are);
    var uui := mem.Load(aim);
    StoreFour(mem.words, b, tw, a, a + 1, (ToI64(uur + xbr), ToI64(uui + xbi), ToI64(uur - xbr), ToI64(uui - xbi)));
    mem.Store(are, ToI64(uur + xbr));
    mem.Store(aim, ToI64(uui + xbi));
    mem.Store(bre, ToI64(uur - xbr));
    mem.Store(bim, ToI64(uui - xbi));
  }

  // One butterfly through its six running addresses.
  method FlyAddr(mem: Memory, ghost b: Bufs, ghost tw: seq<int>, twp: int, are: int, aim: int, bre: int, bim: int,
                 ghost k: nat, ghost i: nat, ghost j: nat)
    requires Ready(mem.words, b, tw) && 2 * k + 1 < b.n && i < b.n && j < b.n
    requires twp == b.tw + 16 * k
    requires are == b.re + 8 * i && aim == b.im + 8 * i && bre == b.re + 8 * j && bim == b.im + 8 * j
    modifies mem
    ensures Ready(mem.words, b, tw)
    ensures SigOf(mem.words, b) == Fly(old(SigOf(mem.words, b)), i, j, At(tw, 2 * k), At(tw, 2 * k + 1), false)
  {
    hide Ready, SigOf, ToI64, Put, Shr16;
    Loads(mem.words, b, tw, 2 * k);
    Loads(mem.words, b, tw, 2 * k + 1);
    Loads(mem.words, b, tw, i);
    Loads(mem.words, b, tw, j);
    var wr := mem.Load(twp);
    var wi := mem.Load(twp + 8);
    var xbr := mem.Load(bre);
    var xbi := mem.Load(bim);
    var trr := ToI64(Shr16(ToI64(wr * xbr)) - Shr16(ToI64(wi * xbi)));
    var tii := ToI64(Shr16(ToI64(wr * xbi)) + Shr16(ToI64(wi * xbr)));
    var uur := mem.Load(are);
    var uui := mem.Load(aim);
    StoreFour(mem.words, b, tw, i, j, (ToI64(uur + trr), ToI64(uui + tii), ToI64(uur - trr), ToI64(uui - tii)));
    mem.Store(are, ToI64(uur + trr));
    mem.Store(aim, ToI64(uui + tii));
    mem.Store(bre, ToI64(uur - trr));
    mem.Store(bim, ToI64(uui - tii));
  }

  // The inner loop: every address advances by a constant stride.
  method BlockAddr(mem: Memory, ghost b: Bufs, ghost tw: seq<int>, twBase: int, areS: int, aimS: int,
                   half: nat, twstep: int, ghost step: nat, ghost start: nat)
    requires Ready(mem.words, b, tw) && twBase == b.tw && areS == b.re + 8 * start && aimS == b.im + 8 * start
    requires start + 2 * half <= b.n && step > 0 && b.n == Span(half, step) && twstep == 16 * step
    modifies mem
    ensures Ready(mem.words, b, tw)
    ensures SigOf(mem.words, b) == Inner(old(SigOf(mem.words, b)), tw, start, half, step, half, false)
  {
    hide Ready, SigOf, Fly, Span;
    ghost var x := SigOf(mem.words, b);
    var jj, twp, are, aim, bre, bim := 0, twBase, areS, aimS, areS + half * 8, aimS + half * 8;
    ghost var k := 0;
    while jj < half
      invariant jj <= half && k == jj * step && twp == b.tw + 16 * k
      invariant are == b.re + 8 * (start + jj) && aim == b.im + 8 * (start + jj)
      invariant bre == b.re + 8 * (start + jj + half) && bim == b.im + 8 * (start + jj + half)
      invariant Ready(mem.words, b, tw)
      invariant SigOf(mem.words, b) == Inner(x, tw, start, half, step, jj, false)
    {
      TwiddleIndex(jj, half, step, b.n);
      FlyAddr(mem, b, tw, twp, are, aim, bre, bim, k, start + jj, start + jj + half);
      assert (jj + 1) * step == jj * step + step;
      jj, twp, k := jj + 1, twp + twstep, k + step;
      are, aim, bre, bim := are + 8, aim + 8, bre + 8, bim + 8;
    }
  }

  // The middle loop: block by block.
  method BlocksAddr(mem: Memory, ghost b: Bufs, ghost tw: seq<int>, re: int, im: int, twBase: int, n: nat,
                    length: nat, half: nat, step: nat)
    requires Ready(mem.words, b, tw) && re == b.re && im == b.im && twBase == b.tw && n == b.n
    requires length == 2 * half > 0 && step > 0 && n == Span(half, step) && BlockStart(step, half) == n
    modifies mem
    ensures Ready(mem.words, b, tw)
    ensures SigOf(mem.words, b) == Outer(old(SigOf(mem.words, b)), tw, half, step, step, false)
  {
    hide Ready, SigOf, Inner, BlockStart, Span;
    BlockZero(half);
    var twstep := step * 16;
    var lenbytes := length * 8;
    ghost var x := SigOf(mem.words, b);
    var areS, aimS, start := re, im, 0;
    ghost var q := 0;
    while start < n
      invariant q <= step && start == BlockStart(q, half)
      invariant areS == re + 8 * start && aimS == im + 8 * start && Ready(mem.words, b, tw)
      invariant SigOf(mem.words, b) == Outer(x, tw, half, step, q, false)
      decreases step - q
    {
      NextBlock(q, half, step, n);
      BlockAddr(mem, b, tw, twBase, areS, aimS, half, twstep, step, start);
      areS, aimS, start := areS + lenbytes, aimS + lenbytes, start + length;
      q := q + 1;
    }
    LastBlock(q, half, step, n);
  }

  method StageAddr(mem: Memory, ghost b: Bufs, ghost tw: seq<int>, re: int, im: int, twBase: int,
                   ghost logn: nat, n: nat, ghost k: nat, length: nat)
    requires Ready(mem.words, b, tw) && re == b.re && im == b.im && twBase == b.tw && n == b.n == Pow2(logn)
    requires 1 <= k <= logn && length == Pow2(k)
    modifies mem
    ensures Ready(mem.words, b, tw)
    ensures SigOf(mem.words, b) == Stage(old(SigOf(mem.words, b)), tw, logn, k, false)
  {
    hide Ready, SigOf, Outer, BlockStart, Span;
    StageShape(logn, k);
    var half := length / 2;
    var step := n / length;
    BlocksAddr(mem, b, tw, re, im, twBase, n, length, half, step);
  }

  // The kernel, for every power-of-two size of at least two.
  method Fft(mem: Memory, re: int, im: int, tw: int, logn: nat, n: nat, ghost twiddles: seq<int>) returns (rc: int)
    requires logn >= 1 && n == Pow2(logn) && Ready(mem.words, Bufs(re, im, tw, n), twiddles)
    modifies mem
    ensures rc == 0
    ensures var b := Bufs(re, im, tw, n);
            && Ready(mem.words, b, twiddles)
            && SigOf(mem.words, b) == PeeledTransform(old(SigOf(mem.words, b)), twiddles, logn, false)
  {
    hide Ready, SigOf, BitReverse, Stage, PlainStage;
    ghost var b := Bufs(re, im, tw, n);
    SwapAll(mem, b, twiddles, re, im, logn, n);
    ghost var y := SigOf(mem.words, b);
    HalfOfPow2(logn);
    PlainStageAddr(mem, b, twiddles, re, im, n);
    var length := 4;
    ghost var k := 2;
    while length <= n
      invariant 2 <= k <= logn + 1 && length == Pow2(k) && Ready(mem.words, b, twiddles)
      invariant SigOf(mem.words, b) == PeeledStages(y, twiddles, logn, k - 1, false)
      decreases logn + 1 - k
    {
      Pow2Grows(k, logn);
      StageAddr(mem, b, twiddles, re, im, tw, logn, n, k, length);
      length := 2 * length;
      k := k + 1;
    }
    Pow2Grows(logn, k);
    rc := 0;
  }

  // Running both programs on the same contents leaves the same contents.
  method KernelAndReference(mem: Memory, b: Bufs, logn: nat, tw: seq<int>, re: array<int>, im: array<int>)
    requires logn >= 1 && b.n == Pow2(logn) && Ready(mem.words, b, tw)
    requires re != im && re.Length == im.Length == b.n && SigOf(mem.words, b) == Sig(re[..], im[..])
    requires UnitFirst(tw) && AllI64(Sig(re[..], im[..])) && UpperNear(Sig(re[..], im[..]), logn)
    modifies mem, re, im
    ensures SigOf(mem.words, b) == Sig(re[..], im[..])
  {
    KernelIsReference(Sig(re[..], im[..]), tw, logn);
    hide Ready, SigOf;
    var rc := Fft(mem, b.re, b.im, b.tw, logn, b.n, tw);
    RefFft(re, im, tw, logn);
  }
}
