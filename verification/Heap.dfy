/**
 A byte-addressed heap: fresh blocks from malloc, 8-byte little-endian loads and stores,
 and memcpy.
 */
module Heap {
  import opened Fixed

  // Every allocated address with the byte it holds.
  type Bytes = map<int, int>

  ghost predicate In(x: int, a: int, n: int) { a <= x < a + n }

  // The addresses a .. a + n - 1.
  ghost function Span(a: int, n: int): set<int> {
    set x | a <= x < a + n && In(x, a, n)
  }

  ghost predicate Has(h: Bytes, a: int, n: int) { forall x | a <= x < a + n :: x in h }

  // ----- little-endian words

  function Encode(u: nat, n: nat): (s: seq<int>)
    ensures |s| == n
  {
    if n == 0 then [] else [u % 256] + Encode(u / 256, n - 1)
  }

  function Decode(s: seq<int>): int {
    if s == [] then 0 else s[0] + 256 * Decode(s[1..])
  }

  function Pow256(n: nat): nat { if n == 0 then 1 else 256 * Pow256(n - 1) }

  lemma {:induction false} DecodeEncode(u: nat, n: nat)
    requires u < Pow256(n)
    ensures Decode(Encode(u, n)) == u
  {
    if n > 0 {
      DecodeEncode(u / 256, n - 1);
      assert Encode(u, n)[1..] == Encode(u / 256, n - 1);
    }
  }

  // ----- reading and writing runs of bytes

  function Read(h: Bytes, a: int, n: nat): (s: seq<int>)
    ensures |s| == n
  {
    seq(n, i => if a + i in h then h[a + i] else 0)
  }

  function Write(h: Bytes, a: int, s: seq<int>): Bytes {
    map x | x in h :: if a <= x < a + |s| then s[x - a] else h[x]
  }

  function Load(h: Bytes, a: int): i64 { ToI64(Decode(Read(h, a, 8))) }

  function Store(h: Bytes, a: int, v: int): Bytes { Write(h, a, Encode(U64(v), 8)) }

  // Two heaps hold the same bytes at the given addresses.
  ghost predicate Agree(h: Bytes, h': Bytes, cells: set<int>) {
    forall x | x in cells :: (x in h <==> x in h') && (x in h ==> h'[x] == h[x])
  }

  lemma ReadAgree(h: Bytes, h': Bytes, a: int, n: nat, cells: set<int>)
    requires Agree(h, h', cells) && Span(a, n) <= cells
    ensures Read(h', a, n) == Read(h, a, n) && (Has(h, a, n) <==> Has(h', a, n))
  {
    forall x | a <= x < a + n ensures (x in h <==> x in h') && (x in h ==> h'[x] == h[x]) {
      assert In(x, a, n) && x in Span(a, n);
    }
    forall i | 0 <= i < n ensures Read(h', a, n)[i] == Read(h, a, n)[i] {
      assert In(a + i, a, n);
    }
  }

  lemma LoadAgree(h: Bytes, h': Bytes, a: int, cells: set<int>)
    requires Agree(h, h', cells) && Span(a, 8) <= cells
    ensures Load(h', a) == Load(h, a)
  {
    ReadAgree(h, h', a, 8, cells);
  }

  // A write changes only its span.
  lemma WriteAgree(h: Bytes, a: int, s: seq<int>, cells: set<int>)
    requires cells !! Span(a, |s|)
    ensures Agree(h, Write(h, a, s), cells) && Write(h, a, s).Keys == h.Keys
  {
    forall x | x in cells ensures !(a <= x < a + |s|) {
      assert In(x, a, |s|) ==> x in Span(a, |s|);
    }
  }

  lemma ReadWrite(h: Bytes, a: int, s: seq<int>)
    requires Has(h, a, |s|)
    ensures Read(Write(h, a, s), a, |s|) == s
  {
    forall i | 0 <= i < |s| ensures Read(Write(h, a, s), a, |s|)[i] == s[i] {
      assert a + i in h;
    }
  }

  lemma LoadStore(h: Bytes, a: int, v: i64)
    requires Has(h, a, 8)
    ensures Load(Store(h, a, v), a) == v
  {
    hide Read, Write;
    var s := Encode(U64(v), 8);
    ReadWrite(h, a, s);
    assert Pow256(8) == TWO64 by {
      assert Pow256(4) == TWO32;
    }
    DecodeEncode(U64(v), 8);
    SignedView(v);
    FitsI64(v);
  }

  lemma StoreAgree(h: Bytes, a: int, v: int, cells: set<int>)
    requires cells !! Span(a, 8)
    ensures Agree(h, Store(h, a, v), cells) && Store(h, a, v).Keys == h.Keys
  {
    hide Write, Encode;
    WriteAgree(h, a, Encode(U64(v), 8), cells);
  }

  lemma AgreeTrans(h0: Bytes, h1: Bytes, h2: Bytes, cells: set<int>)
    requires Agree(h0, h1, cells) && Agree(h1, h2, cells)
    ensures Agree(h0, h2, cells)
  {
  }

  lemma AgreeSubset(h: Bytes, h': Bytes, cells: set<int>, fewer: set<int>)
    requires Agree(h, h', cells) && fewer <= cells
    ensures Agree(h, h', fewer)
  {
  }

  // Some address above all of the given ones.
  method Above(keys: set<int>) returns (p: int)
    ensures p > 0 && forall x | x in keys :: x < p
    ensures p > 1 ==> p - 1 in keys
  {
    var rest := keys;
    p := 1;
    while exists y :: y in rest
      invariant rest <= keys && p > 0 && (p > 1 ==> p - 1 in keys)
      invariant forall x | x in keys && x !in rest :: x < p
      decreases |rest|
    {
      var y :| y in rest;
      rest := rest - {y};
      if y >= p {
        p := y + 1;
      }
    }
  }

  const ADDRESS_LIMIT := 0x1000_0000_0000_0000

  // Cells hold bytes; addresses are positive and leave room for i64 arithmetic on them.
  ghost predicate Sane(h: Bytes) { forall x | x in h :: 0 < x < ADDRESS_LIMIT && 0 <= h[x] < 256 }

  lemma {:induction false} EncodeBytes(u: nat, n: nat)
    ensures forall i | 0 <= i < n :: 0 <= Encode(u, n)[i] < 256
  {
    if n > 0 {
      EncodeBytes(u / 256, n - 1);
    }
  }

  lemma ReadBytes(h: Bytes, a: int, n: nat)
    requires Sane(h)
    ensures forall i | 0 <= i < n :: 0 <= Read(h, a, n)[i] < 256
  {
  }

  lemma WriteSane(h: Bytes, a: int, s: seq<int>)
    requires Sane(h) && forall i | 0 <= i < |s| :: 0 <= s[i] < 256
    ensures Sane(Write(h, a, s))
  {
  }

  // Too little room is left for a block of n bytes.
  ghost predicate Exhausted(h: Bytes, n: int) {
    n >= ADDRESS_LIMIT / 2 || exists x :: x in h && x >= ADDRESS_LIMIT / 2 - 1
  }

  // The heap the intrinsics work on.
  class Arena {
    var mem: Bytes

    ghost predicate Valid()
      reads this
    {
      Sane(mem)
    }

    constructor ()
      ensures Valid() && mem == map[]
    {
      mem := map[];
    }

    // __mind_alloc: a block of n bytes that overlaps no live one; 0 when n is not positive
    // or malloc fails.
    method Alloc(n: int) returns (p: int)
      requires Valid()
      modifies this
      ensures Valid() && p >= 0
      ensures p == 0 ==> mem == old(mem) && (n <= 0 || Exhausted(mem, n))
      ensures p > 0 ==> n > 0 && Span(p, n) !! old(mem).Keys && mem.Keys == old(mem).Keys + Span(p, n)
      ensures p > 0 ==> Agree(old(mem), mem, old(mem).Keys) && p + n <= ADDRESS_LIMIT
    {
      if n <= 0 {
        return 0;
      }
      p := Above(mem.Keys);
      if p + n > ADDRESS_LIMIT {
        return 0;
      }
      var block := set y | p <= y < p + n && Addr(y);
      mem := map x | x in mem.Keys + block :: if x in mem then mem[x] else 0;
      assert block == Span(p, n);
    }

    // __mind_store_i64
    method StoreI64(a: int, v: int)
      requires Valid() && Has(mem, a, 8)
      modifies this
      ensures Valid() && mem == Store(old(mem), a, v)
    {
      EncodeBytes(U64(v), 8);
      WriteSane(mem, a, Encode(U64(v), 8));
      mem := Store(mem, a, v);
    }

    // memcpy between blocks that do not overlap
    method Copy(dst: int, src: int, n: nat)
      requires Valid() && Has(mem, dst, n) && Has(mem, src, n)
      modifies this
      ensures Valid() && mem == Write(old(mem), dst, Read(old(mem), src, n))
    {
      ReadBytes(mem, src, n);
      WriteSane(mem, dst, Read(mem, src, n));
      mem := Write(mem, dst, Read(mem, src, n));
    }
  }

  // Always true; the term by which the set of a new block's addresses is found.
  predicate Addr(x: int) { true }
}
