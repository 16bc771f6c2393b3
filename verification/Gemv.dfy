/**
 The multithreaded Q16.16 matrix-vector product: row bands on the pool compute exactly the
 scalar oracle, however the rows are split.
 */
module Gemv {
  import opened Fixed
  import opened Dot
  import opened Bands
  import opened Pool
  import opened PoolInvariant
  import opened PoolCalls

  // What the oracle adds up for the k entries from base on: products shifted right by 16,
  // rounding down.
  function ProductSum(catalog: seq<i32>, query: seq<i32>, base: nat, n: nat): int
    requires base + n <= |catalog| && n <= |query|
  {
    if n == 0 then 0 else ProductSum(catalog, query, base, n - 1) + (catalog[base + n - 1] as int) * query[n - 1] / 0x1_0000
  }

  // Row i of the catalog.
  function Row(catalog: seq<i32>, i: nat, k: nat): (r: seq<i32>)
    requires i * k + k <= |catalog|
    ensures |r| == k && forall kk | 0 <= kk < k :: r[kk] == catalog[i * k + kk]
  {
    catalog[i * k..i * k + k]
  }

  lemma {:induction false} RowSum(catalog: seq<i32>, query: seq<i32>, i: nat, k: nat, n: nat)
    requires i * k + k <= |catalog| && n <= k <= |query|
    ensures DotSum(Row(catalog, i, k), query, n) == ProductSum(catalog, query, i * k, n)
  {
    hide Row;
    if n > 0 {
      RowSum(catalog, query, i, k, n - 1);
      assert Row(catalog, i, k)[n - 1] == catalog[i * k + (n - 1)];
    }
  }

  lemma RowInside(i: nat, m: nat, k: nat)
    requires i < m
    ensures i * k + k <= m * k
  {
    assert i * k + k == (i + 1) * k;
    assert (i + 1) * k <= m * k;
  }

  // The score of one row.
  function Score(catalog: seq<i32>, query: seq<i32>, k: nat, i: nat): i32
    requires i * k + k <= |catalog| && k <= |query|
  {
    ToI32(DotSum(Row(catalog, i, k), query, k))
  }

  method RefGemv(catalog: seq<i32>, query: seq<i32>, m: nat, k: nat) returns (s: array<int>)
    requires |catalog| == m * k && |query| == k
    ensures s.Length == m
    ensures forall i | 0 <= i < m :: i * k + k <= m * k && s[i] == ToI32(ProductSum(catalog, query, i * k, k))
  {
    hide ToI64, ToI32, Term, ProductSum, DotSum;
    s := new int[m](_ => 0);
    for i := 0 to m
      invariant forall r | 0 <= r < i :: r * k + k <= m * k && s[r] == ToI32(ProductSum(catalog, query, r * k, k))
    {
      RowInside(i, m, k);
      RowSum(catalog, query, i, k, k);
      s[i] := RowScore(catalog, query, i, k);
    }
  }

  method RowScore(catalog: seq<i32>, query: seq<i32>, i: nat, k: nat) returns (r: i32)
    requires i * k + k <= |catalog| && |query| == k
    ensures r == Score(catalog, query, k, i) && r == ToI32(ProductSum(catalog, query, i * k, k))
  {
    hide Term, ProductSum;
    var acc: i64 := 0;
    ghost var row := Row(catalog, i, k);
    for kk := 0 to k
      invariant acc == ToI64(DotSum(row, query, kk))
    {
      assert row[kk] == catalog[i * k + kk];
      AddI64(DotSum(row, query, kk), Term(row[kk], query[kk]));
      acc := ToI64(acc + Term(catalog[i * k + kk], query[kk]));
    }
    ToI32OfWrapped(DotSum(row, query, k));
    RowSum(catalog, query, i, k, k);
    r := ToI32(acc);
  }

  // ----- the kernel as bands

  // Where the operands live, and how the M rows are cut: band b computes rows
  // cuts[b] .. cuts[b + 1].
  datatype Layout = Layout(cat: int, query: int, out: int, m: nat, k: nat, cuts: seq<nat>)

  ghost function Range(base: int, n: int): set<int> {
    set a | base <= a < base + n && Between(a, base, n)
  }

  ghost predicate Between(a: int, base: int, n: int) {
    base <= a < base + n
  }

  // The bands cover the rows in order, and the output overlaps no operand.
  ghost predicate GoodLayout(l: Layout) {
    && |l.cuts| >= 2 && l.cuts[0] == 0 && l.cuts[|l.cuts| - 1] == l.m
    && (forall b, b' | 0 <= b <= b' < |l.cuts| :: l.cuts[b] <= l.cuts[b'])
    && Range(l.out, l.m) !! Range(l.cat, l.m * l.k)
    && Range(l.out, l.m) !! Range(l.query, l.k)
  }

  function Cell(m: Mem, a: int): i32 {
    if a in m then ToI32(m[a]) else 0
  }

  function Cells(m: Mem, a: int, n: nat): (s: seq<i32>)
    ensures |s| == n
  {
    seq<i32>(n, i => Cell(m, a + i))
  }

  // The same sum over memory cells: row entry cat + row * k + kk times query + kk.
  function CellSum(m: Mem, cat: int, query: int, n: nat): int {
    if n == 0 then 0 else CellSum(m, cat, query, n - 1) + (Cell(m, cat + (n - 1)) as int) * Cell(m, query + (n - 1)) / 0x1_0000
  }

  lemma {:induction false} CellSumIs(m: Mem, cat: int, size: nat, query: int, k: nat, base: nat, n: nat)
    requires base + n <= size && n <= k
    ensures ProductSum(Cells(m, cat, size), Cells(m, query, k), base, n) == CellSum(m, cat + base, query, n)
  {
    hide Cell;
    if n > 0 {
      CellSumIs(m, cat, size, query, k, base, n - 1);
      assert Cells(m, cat, size)[base + (n - 1)] == Cell(m, cat + (base + (n - 1)));
      assert Cells(m, query, k)[n - 1] == Cell(m, query + (n - 1));
    }
  }

  function ScoreFrom(l: Layout, m: Mem, row: nat): int {
    if row < l.m then
      RowInside(row, l.m, l.k);
      Score(Cells(m, l.cat, l.m * l.k), Cells(m, l.query, l.k), l.k, row)
    else 0
  }

  function BandProg(l: Layout, b: int): seq<Instr> {
    if 0 <= b < |l.cuts| - 1 && l.cuts[b] <= l.cuts[b + 1] then
      seq(l.cuts[b + 1] - l.cuts[b], t requires 0 <= t < l.cuts[b + 1] - l.cuts[b] =>
        Instr((m: Mem) => (l.out + l.cuts[b] + t, ScoreFrom(l, m, l.cuts[b] + t))))
    else []
  }

  ghost function BandOwn(l: Layout, b: int): set<int> {
    if 0 <= b < |l.cuts| - 1 then Range(l.out + l.cuts[b], l.cuts[b + 1] as int - l.cuts[b]) else {}
  }

  ghost function Operands(l: Layout): set<int> {
    Range(l.cat, l.m * l.k) + Range(l.query, l.k)
  }

  // Band b gets the b-th argument struct of the buffer.
  function BandOf(r: Req, arg: int, n: nat): int {
    if n == 0 then -1 else if Arg(r, n - 1) == arg then n - 1 else BandOf(r, arg, n - 1)
  }

  ghost function KernelCode(l: Layout, r: Req): Code {
    Code((f, a) => BandProg(l, BandOf(r, a, r.n)), (f, a) => BandOwn(l, BandOf(r, a, r.n)), (f, a) => Operands(l))
  }

  lemma {:induction false} BandOfArg(r: Req, b: nat, n: nat)
    requires r.stride > 0 && b < n
    ensures BandOf(r, Arg(r, b), n) == b
  {
    if b < n - 1 {
      assert Arg(r, n - 1) - Arg(r, b) == (n - 1 - b) * r.stride;
      BandOfArg(r, b, n - 1);
    }
  }

  lemma CellsAgree(m1: Mem, m2: Mem, a: int, n: nat)
    requires Agree(m1, m2, Range(a, n))
    ensures Cells(m1, a, n) == Cells(m2, a, n)
  {
    forall i | 0 <= i < n ensures Cells(m1, a, n)[i] == Cells(m2, a, n)[i] {
      assert Between(a + i, a, n) && a + i in Range(a, n);
      assert Same(m1, m2, a + i);
      assert Cells(m1, a, n)[i] == Cell(m1, a + i) && Cells(m2, a, n)[i] == Cell(m2, a + i);
    }
  }

  lemma ScoreFromOperands(l: Layout, m1: Mem, m2: Mem, row: nat)
    requires Agree(m1, m2, Operands(l))
    ensures ScoreFrom(l, m1, row) == ScoreFrom(l, m2, row)
  {
    hide Score;
    assert Agree(m1, m2, Range(l.cat, l.m * l.k)) && Agree(m1, m2, Range(l.query, l.k));
    CellsAgree(m1, m2, l.cat, l.m * l.k);
    CellsAgree(m1, m2, l.query, l.k);
  }

  lemma BandConfined(l: Layout, b: nat)
    requires GoodLayout(l) && b < |l.cuts| - 1
    ensures Confined(BandProg(l, b), BandOwn(l, b), Operands(l))
  {
    hide ScoreFrom, Operands;
    var p := BandProg(l, b);
    assert l.cuts[b] <= l.cuts[b + 1];
    forall t, m1, m2 | 0 <= t < |p| && Agree(m1, m2, BandOwn(l, b) + Operands(l))
      ensures p[t].act(m1) == p[t].act(m2)
    {
      assert Agree(m1, m2, Operands(l));
      ScoreFromOperands(l, m1, m2, l.cuts[b] + t);
    }
  }

  // The bands of request r are this kernel's; what else the pool can run is left open.
  ghost predicate RunsKernel(code: Code, l: Layout, r: Req) {
    && r.n == |l.cuts| - 1
    && forall b | 0 <= b < r.n ::
         Prog(code, r, b) == BandProg(l, b) && Own(code, r, b) == BandOwn(l, b) && Uses(code, r, b) == Operands(l)
  }

  // Row bands own disjoint output rows and read only the operands.
  lemma RowBandsAreOwnerComputes(code: Code, l: Layout, r: Req)
    requires GoodLayout(l) && RunsKernel(code, l, r)
    ensures OwnerComputes(code, r)
  {
    hide BandProg, BandOwn, Operands, GoodLayout, Confined;
    forall b | 0 <= b < r.n ensures Confined(Prog(code, r, b), Own(code, r, b), Uses(code, r, b)) {
      BandConfined(l, b);
    }
    forall b, b' | 0 <= b < r.n && 0 <= b' < r.n && b != b'
      ensures Own(code, r, b) !! Own(code, r, b') && Uses(code, r, b) !! Own(code, r, b')
    {
      BandsApart(l, b, b');
    }
  }

  lemma BandsApart(l: Layout, b: nat, b': nat)
    requires GoodLayout(l) && b < |l.cuts| - 1 && b' < |l.cuts| - 1 && b != b'
    ensures BandOwn(l, b) !! BandOwn(l, b') && Operands(l) !! BandOwn(l, b')
  {
    BandApartFromOperands(l, b');
    if b < b' {
      assert l.cuts[b + 1] <= l.cuts[b'];
    } else {
      assert l.cuts[b' + 1] <= l.cuts[b];
    }
  }

  // ----- the split does not matter

  // The band that computes a row.
  lemma {:induction false} BandOfRow(l: Layout, row: nat, n: nat) returns (b: nat)
    requires GoodLayout(l) && n < |l.cuts| && row < l.cuts[n]
    ensures b < n && l.cuts[b] <= row < l.cuts[b + 1]
  {
    if n > 0 && row < l.cuts[n - 1] {
      b := BandOfRow(l, row, n - 1);
    } else {
      b := n - 1;
    }
  }

  lemma BandKeepsOperands(l: Layout, b: nat, k: nat, m: Mem)
    requires GoodLayout(l) && b < |l.cuts| - 1 && k <= |BandProg(l, b)|
    ensures Agree(Exec(BandProg(l, b), k, m), m, Operands(l))
  {
    hide ScoreFrom, BandProg;
    BandApartFromOperands(l, b);
    BandConfined(l, b);
    forall a | a in Operands(l) ensures Same(Exec(BandProg(l, b), k, m), m, a) {
      ExecKeepsOthers(BandProg(l, b), BandOwn(l, b), Operands(l), k, m, a);
    }
  }

  // m' holds the score of row computed from the operands in m.
  ghost predicate Scored(l: Layout, m: Mem, m': Mem, row: nat) {
    l.out + row in m' && m'[l.out + row] == ScoreFrom(l, m, row)
  }

  // Running the first k stores of a band leaves its first k rows scored from the operands.
  lemma {:induction false} BandScores(l: Layout, b: nat, k: nat, m: Mem)
    requires GoodLayout(l) && b < |l.cuts| - 1 && k <= |BandProg(l, b)|
    ensures var m' := Exec(BandProg(l, b), k, m);
            forall row | l.cuts[b] <= row < l.cuts[b] + k :: Scored(l, m, m', row)
  {
    hide ScoreFrom, Operands;
    if k > 0 {
      BandScores(l, b, k - 1, m);
      var p := BandProg(l, b);
      var m1 := Exec(p, k - 1, m);
      BandKeepsOperands(l, b, k - 1, m);
      ScoreFromOperands(l, m1, m, l.cuts[b] + k - 1);
      assert p[k - 1].act(m1) == (l.out + l.cuts[b] + (k - 1), ScoreFrom(l, m1, l.cuts[b] + (k - 1)));
      var m2 := Exec(p, k, m);
      forall row | l.cuts[b] <= row < l.cuts[b] + k ensures Scored(l, m, m2, row) {
        if row < l.cuts[b] + k - 1 {
          assert Scored(l, m, m1, row);
        }
      }
    }
  }

  lemma BandApartFromOperands(l: Layout, b: nat)
    requires GoodLayout(l) && b < |l.cuts| - 1
    ensures Operands(l) !! BandOwn(l, b)
  {
    assert l.cuts[b + 1] <= l.cuts[|l.cuts| - 1];
    assert BandOwn(l, b) <= Range(l.out, l.m);
  }

  lemma BandLength(l: Layout, b: nat)
    requires GoodLayout(l) && b < |l.cuts| - 1
    ensures |BandProg(l, b)| == l.cuts[b + 1] as int - l.cuts[b]
  {
  }

  // Such code exists for every layout: each band finds its number from its argument.
  lemma KernelCodeRuns(l: Layout, r: Req)
    requires r.stride > 0 && r.n == |l.cuts| - 1
    ensures RunsKernel(KernelCode(l, r), l, r)
  {
    hide BandProg, BandOwn, Operands;
    forall b | 0 <= b < r.n ensures BandOf(r, Arg(r, b), r.n) == b {
      BandOfArg(r, b, r.n);
    }
  }

  lemma RowOwned(l: Layout, row: nat) returns (b: nat)
    requires GoodLayout(l) && row < l.m
    ensures b < |l.cuts| - 1 && l.out + row in BandOwn(l, b)
    ensures l.cuts[b] <= row < l.cuts[b] + |BandProg(l, b)|
  {
    b := BandOfRow(l, row, |l.cuts| - 1);
    BandLength(l, b);
    assert Between(l.out + row, l.out + l.cuts[b], l.cuts[b + 1] as int - l.cuts[b]);
  }

  // The serial loop over the bands leaves every output row scored.
  lemma SerialScores(code: Code, l: Layout, r: Req, m: Mem, row: nat)
    requires GoodLayout(l) && RunsKernel(code, l, r) && row < l.m
    ensures Scored(l, m, Serial(code, r, r.n, m), row)
  {
    hide ScoreFrom, Serial, Operands, OwnerComputes, BandProg, BandOwn, GoodLayout;
    var b := RowOwned(l, row);
    RowBandsAreOwnerComputes(code, l, r);
    SerialByOwner(code, r, r.n, m);
    var p := BandProg(l, b);
    BandScores(l, b, |p|, m);
    assert Prog(code, r, b) == p && Own(code, r, b) == BandOwn(l, b);
    assert Scored(l, m, Exec(p, |p|, m), row);
    assert Same(Serial(code, r, r.n, m), Exec(p, |p|, m), l.out + row);
  }

  // m' holds, for this row, the oracle's score of the operands that m holds at these cells.
  ghost predicate RowDone(l: Layout, m: Mem, m': Mem, row: nat) {
    && l.out + row in m'
    && m'[l.out + row] == ToI32(CellSum(m, l.cat + row * l.k, l.query, l.k))
  }

  lemma ScoredIsDone(l: Layout, m: Mem, m': Mem, row: nat)
    requires row < l.m && Scored(l, m, m', row)
    ensures RowDone(l, m, m', row)
  {
    hide Cells, CellSum, ProductSum, DotSum, ToI32;
    RowInside(row, l.m, l.k);
    RowSum(Cells(m, l.cat, l.m * l.k), Cells(m, l.query, l.k), row, l.k, l.k);
    CellSumIs(m, l.cat, l.m * l.k, l.query, l.k, row * l.k, l.k);
  }

  // For every pool size, every schedule, whatever else the pool runs for other callers, and
  // every way of cutting the M rows into at most pool_n bands: when a call for these bands is
  // done, every output row holds exactly the oracle's score of the operands that were in
  // memory when the call got the dispatch lock.
  lemma PooledGemvIsOracle(c: Config, l: Layout, s0: State, call: Step, sts: seq<Step>, k: nat, s: State, s1: State, row: nat)
    requires Inv(c, s0) && call.Begin? && Dispatched(c, s0, call, sts, k, s, s1) && 0 < call.nBands <= c.poolN
    requires GoodLayout(l) && RunsKernel(c.code, l, Req(call.fn, call.argbuf, call.stride, call.nBands))
    requires row < l.m
    ensures RowDone(l, s.mem, s1.mem, row)
  {
    hide ScoreFrom, GoodLayout, RunsKernel, Dispatched, Inv, Serial, OwnerComputes;
    var r := Req(call.fn, call.argbuf, call.stride, call.nBands);
    RowBandsAreOwnerComputes(c.code, l, r);
    CallIsSerial(c, s0, call, sts, k, s, s1);
    SerialScores(c.code, l, r, s.mem, row);
    ScoredIsDone(l, s.mem, s1.mem, row);
  }
}
