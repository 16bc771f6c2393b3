/**
 Vectors of i64 on the byte heap: a record [addr | len | cap] mutated in place.
 */
module Vectors {
  import opened Fixed
  import opened Heap
  import opened Strings

  // ----- arrays of words

  ghost predicate Words(h: Bytes, a: int, ws: seq<int>) {
    Has(h, a, 8 * |ws|) && forall i | 0 <= i < |ws| :: Load(h, a + 8 * i) == ws[i]
  }

  lemma WordSpan(a: int, i: nat, n: nat)
    requires i < n
    ensures Span(a + 8 * i, 8) <= Span(a, 8 * n)
  {
    SubSpan(a + 8 * i, 8, a, 8 * n);
  }

  lemma WordsAgree(h: Bytes, h': Bytes, a: int, ws: seq<int>, cells: set<int>)
    requires Words(h, a, ws) && Span(a, 8 * |ws|) <= cells && Agree(h, h', cells)
    ensures Words(h', a, ws)
  {
    hide Load, Read;
    ReadAgree(h, h', a, 8 * |ws|, cells);
    forall i | 0 <= i < |ws| ensures Load(h', a + 8 * i) == ws[i] {
      WordSpan(a, i, |ws|);
      LoadAgree(h, h', a + 8 * i, cells);
    }
  }

  // A store just past the last word appends it.
  lemma WordsAppend(h: Bytes, a: int, ws: seq<int>, x: i64)
    requires Words(h, a, ws) && Has(h, a, 8 * |ws| + 8)
    ensures var h' := Store(h, a + 8 * |ws|, x);
            h'.Keys == h.Keys && Agree(h, h', h.Keys - Span(a + 8 * |ws|, 8)) && Words(h', a, ws + [x])
  {
    hide Load, Store;
    var n := |ws|;
    var h' := Store(h, a + 8 * n, x);
    StoreAgree(h, a + 8 * n, x, h.Keys - Span(a + 8 * n, 8));
    SpanInKeys(h, a, 8 * n);
    ApartSpans(a, 8 * n, a + 8 * n, 8);
    WordsAgree(h, h', a, ws, h.Keys - Span(a + 8 * n, 8));
    HasPart(h, a, 8 * n + 8, a + 8 * n, 8);
    LoadStore(h, a + 8 * n, x);
  }

  lemma ReadPart(h: Bytes, a: int, n: nat, k: nat, m: nat)
    requires k + m <= n
    ensures Read(h, a + k, m) == Read(h, a, n)[k..k + m]
  {
  }

  lemma SameBytesSameWord(h: Bytes, a: int, h': Bytes, b: int)
    requires Read(h, a, 8) == Read(h', b, 8)
    ensures Load(h, a) == Load(h', b)
  {
  }

  // Copying the bytes copies the words.
  lemma WordsCopy(h: Bytes, src: int, ws: seq<int>, dst: int)
    requires Words(h, src, ws) && Has(h, dst, 8 * |ws|)
    ensures Words(Write(h, dst, Read(h, src, 8 * |ws|)), dst, ws)
  {
    hide Read, Write, Load;
    var n := 8 * |ws|;
    var bytes := Read(h, src, n);
    var h' := Write(h, dst, bytes);
    ReadWrite(h, dst, bytes);
    WriteKeys(h, dst, bytes);
    HasKeys(h, h', dst, n);
    forall i | 0 <= i < |ws| ensures Load(h', dst + 8 * i) == ws[i] {
      ReadPart(h', dst, n, 8 * i, 8);
      ReadPart(h, src, n, 8 * i, 8);
      SameBytesSameWord(h', dst + 8 * i, h, src + 8 * i);
    }
  }

  lemma WriteKeys(h: Bytes, a: int, s: seq<int>)
    ensures Write(h, a, s).Keys == h.Keys
  {
  }

  // ----- vectors

  ghost predicate Vec(h: Bytes, v: int, es: seq<int>) {
    && Has(h, v, 24)
    && var r := Hdr(h, v);
       && r.len == |es| <= r.cap && Has(h, r.addr, 8 * r.cap) && Words(h, r.addr, es)
       && Span(v, 24) !! Span(r.addr, 8 * r.cap)
  }

  function NextVecCap(r: Rec): int { if r.len < r.cap then r.cap else if r.cap == 0 then 4 else r.cap * 2 }

  // Everything the vector may write.
  ghost function VecFoot(h: Bytes, v: int): set<int> { Span(v, 24) + Span(Hdr(h, v).addr, 8 * Hdr(h, v).cap) }

  lemma VecAgree(h: Bytes, h': Bytes, v: int, es: seq<int>, cells: set<int>)
    requires Vec(h, v, es) && VecFoot(h, v) <= cells && Agree(h, h', cells)
    ensures Vec(h', v, es) && VecFoot(h', v) == VecFoot(h, v)
  {
    hide Load, Read, Words;
    var r := Hdr(h, v);
    HdrAgree(h, h', v, cells);
    ReadAgree(h, h', v, 24, cells);
    ReadAgree(h, h', r.addr, 8 * r.cap, cells);
    SubSpan(r.addr, 8 * |es|, r.addr, 8 * r.cap);
    WordsAgree(h, h', r.addr, es, cells);
  }

  lemma VecAllocated(h: Bytes, v: int, es: seq<int>)
    requires Vec(h, v, es)
    ensures VecFoot(h, v) <= h.Keys
  {
    hide Load, Words;
    SpanInKeys(h, v, 24);
    SpanInKeys(h, Hdr(h, v).addr, 8 * Hdr(h, v).cap);
  }

  // What a change to the vector at v leaves alone.
  ghost predicate VecChanged(h: Bytes, h': Bytes, v: int) {
    && h.Keys <= h'.Keys && Agree(h, h', h.Keys - VecFoot(h, v))
    && VecFoot(h', v) !! h.Keys - VecFoot(h, v)
  }

  // vec_new
  method VecNew(a: Arena) returns (v: int)
    requires a.Valid()
    modifies a
    ensures a.Valid() && v >= 0 && (v == 0 ==> Exhausted(a.mem, 24))
    ensures v > 0 ==> Vec(a.mem, v, []) && VecFoot(a.mem, v) !! old(a.mem).Keys && Hdr(a.mem, v).cap == 0
    ensures v > 0 ==> old(a.mem).Keys <= a.mem.Keys && Agree(old(a.mem), a.mem, old(a.mem).Keys)
  {
    hide Load, Exhausted;
    v := MakeRec(a, 0, 0, 0);
  }

  // vec_get
  method VecGet(a: Arena, v: int, i: nat, ghost es: seq<int>) returns (x: int)
    requires Vec(a.mem, v, es) && i < |es|
    ensures x == es[i]
  {
    var base := Load(a.mem, v);
    x := Load(a.mem, base + i * 8);
  }

  // Storing the length field.
  lemma SetLen(h: Bytes, v: int, n: i64)
    requires Has(h, v, 24)
    ensures var h' := Store(h, v + 8, n);
            h'.Keys == h.Keys && Agree(h, h', h.Keys - Span(v, 24)) && Hdr(h', v) == Hdr(h, v).(len := n)
  {
    hide Load, Store;
    var h' := Store(h, v + 8, n);
    var rest := h.Keys - Span(v + 8, 8);
    StoreAgree(h, v + 8, n, rest);
    SubSpan(v + 8, 8, v, 24);
    AgreeSubset(h, h', rest, h.Keys - Span(v, 24));
    HasPart(h, v, 24, v + 8, 8);
    LoadStore(h, v + 8, n);
    SpanInKeys(h, v, 24);
    FieldKept(h, h', v, rest);
    FieldKept(h, h', v + 16, rest);
  }

  lemma FieldKept(h: Bytes, h': Bytes, a: int, rest: set<int>)
    requires Agree(h, h', rest) && Has(h, a, 8) && Span(a, 8) <= rest
    ensures Load(h', a) == Load(h, a)
  {
    LoadAgree(h, h', a, rest);
  }

  // Storing the address and capacity fields.
  lemma SetStore(h: Bytes, v: int, addr: i64, cap: i64)
    requires Has(h, v, 24)
    ensures var h' := Store(Store(h, v, addr), v + 16, cap);
            && h'.Keys == h.Keys && Agree(h, h', h.Keys - Span(v, 24))
            && Hdr(h', v) == Rec(addr, Hdr(h, v).len, cap)
  {
    hide Load, Store;
    var h1 := Store(h, v, addr);
    var h' := Store(h1, v + 16, cap);
    var rest := h.Keys - Span(v, 24);
    SubSpan(v, 8, v, 24);
    SubSpan(v + 8, 8, v, 24);
    SubSpan(v + 16, 8, v, 24);
    ApartSpans(v, 8, v + 8, 8);
    ApartSpans(v, 8, v + 16, 8);
    ApartSpans(v + 8, 8, v + 16, 8);
    StoreAgree(h, v, addr, rest + Span(v + 8, 8));
    StoreAgree(h1, v + 16, cap, rest + Span(v + 8, 8) + Span(v, 8));
    HasPart(h, v, 24, v, 8);
    HasPart(h, v, 24, v + 16, 8);
    HasKeys(h, h1, v + 16, 8);
    LoadStore(h, v, addr);
    LoadStore(h1, v + 16, cap);
    LoadAgree(h, h1, v + 8, rest + Span(v + 8, 8));
    LoadAgree(h1, h', v + 8, rest + Span(v + 8, 8) + Span(v, 8));
    LoadAgree(h1, h', v, rest + Span(v + 8, 8) + Span(v, 8));
  }

  lemma VecBounds(h: Bytes, v: int, es: seq<int>)
    requires Sane(h) && Vec(h, v, es)
    ensures var r := Hdr(h, v); 0 <= |es| <= r.cap && 8 * r.cap < ADDRESS_LIMIT && (r.cap > 0 ==> r.addr > 0)
  {
    hide Load, Words;
    var r := Hdr(h, v);
    if r.cap > 0 {
      assert r.addr in h && r.addr + 8 * r.cap - 1 in h;
    }
  }

  // A vector moved to a new block of which p is the base.
  lemma MovedVec(h: Bytes, h0: Bytes, h1: Bytes, h2: Bytes, v: int, es: seq<int>, p: i64, cap: i64)
    requires Vec(h, v, es) && |es| < cap
    requires Span(p, 8 * cap) !! h.Keys && h0.Keys == h.Keys + Span(p, 8 * cap) && Agree(h, h0, h.Keys)
    requires h1.Keys == h0.Keys && Agree(h0, h1, h.Keys) && Words(h1, p, es)
    requires h2 == Store(Store(h1, v, p), v + 16, cap)
    ensures Vec(h2, v, es) && VecChanged(h, h2, v) && Hdr(h2, v).cap == cap
  {
    hide Load, Store, Words;
    VecAllocated(h, v, es);
    HasKeys(h, h1, v, 24);
    AgreeTrans(h, h0, h1, h.Keys);
    HdrAgree(h, h1, v, h.Keys);
    SetStore(h1, v, p, cap);
    HasKeys(h1, h2, v, 24);
    SpanHas(h2, p, 8 * cap);
    SubSpan(p, 8 * |es|, p, 8 * cap);
    WordsAgree(h1, h2, p, es, h1.Keys - Span(v, 24));
    AgreeSubset(h, h1, h.Keys, h.Keys - VecFoot(h, v));
    AgreeSubset(h1, h2, h1.Keys - Span(v, 24), h.Keys - VecFoot(h, v));
    AgreeTrans(h, h1, h2, h.Keys - VecFoot(h, v));
  }

  // Make room for one more word, doubling the store when it is full.
  method VecReserve(a: Arena, v: int, ghost es: seq<int>) returns (ok: bool)
    requires a.Valid() && Vec(a.mem, v, es)
    modifies a
    ensures a.Valid()
    ensures ok ==> Vec(a.mem, v, es) && VecChanged(old(a.mem), a.mem, v) && |es| < Hdr(a.mem, v).cap
    ensures ok ==> Hdr(a.mem, v).cap == NextVecCap(Hdr(old(a.mem), v))
    ensures !ok ==> Exhausted(a.mem, 16 * Hdr(old(a.mem), v).cap + 32)
  {
    hide Load, Read, Write, Store, Words, Exhausted;
    ghost var h := a.mem;
    VecBounds(h, v, es);
    VecAllocated(h, v, es);
    var base: int, len: int, cap: int := Load(a.mem, v), Load(a.mem, v + 8), Load(a.mem, v + 16);
    if len < cap {
      return true;
    }
    var newCap := if cap == 0 then 4 else cap * 2;
    var p := a.Alloc(newCap * 8);
    if p == 0 {
      MoreExhausted(a.mem, newCap * 8, 16 * cap + 32);
      return false;
    }
    ghost var h0 := a.mem;
    HasPart(h0, p, 8 * newCap, p, 8 * len) by { SpanHas(h0, p, 8 * newCap); }
    WordsAgree(h, h0, base, es, h.Keys) by { SubSpan(base, 8 * len, base, 8 * cap); }
    SubSpan(p, 8 * len, p, 8 * newCap);
    MoveWords(a, p, base, len, cap, es, h.Keys);
    ghost var h1 := a.mem;
    HasKeys(h, h1, v, 24);
    StoreFields(a, v, p, newCap);
    MovedVec(h, h0, h1, a.mem, v, es, p, newCap);
    return true;
  }

  method MoveWords(a: Arena, p: int, base: int, len: nat, cap: int, ghost es: seq<int>, ghost others: set<int>)
    requires a.Valid() && Words(a.mem, base, es) && |es| == len && (cap <= 0 || base == 0 ==> len == 0)
    requires Has(a.mem, p, 8 * len) && Span(p, 8 * len) !! others
    modifies a
    ensures a.Valid() && a.mem.Keys == old(a.mem).Keys && Agree(old(a.mem), a.mem, others) && Words(a.mem, p, es)
  {
    hide Load, Read, Write;
    CopyFacts(a.mem, base, es, p, others);
    if cap > 0 && base != 0 {
      a.Copy(p, base, len * 8);
    }
  }

  method StoreFields(a: Arena, v: int, p: int, cap: int)
    requires a.Valid() && Has(a.mem, v, 24)
    modifies a
    ensures a.Valid() && a.mem == Store(Store(old(a.mem), v, p), v + 16, cap)
  {
    hide Store;
    ghost var h1 := a.mem;
    HasPart(h1, v, 24, v, 8);
    HasPart(h1, v, 24, v + 16, 8);
    a.StoreI64(v, p);
    StoreKeys(h1, v, p);
    HasKeys(h1, a.mem, v + 16, 8);
    a.StoreI64(v + 16, cap);
  }

  // Copying, or having nothing to copy, leaves the words at p and everything old alone.
  lemma CopyFacts(h0: Bytes, base: int, es: seq<int>, p: int, others: set<int>)
    requires Words(h0, base, es) && Has(h0, p, 8 * |es|) && Span(p, 8 * |es|) !! others
    ensures var h1 := Write(h0, p, Read(h0, base, 8 * |es|));
            h1.Keys == h0.Keys && Agree(h0, h1, others) && Words(h1, p, es)
    ensures es == [] ==> Words(h0, p, es) && Agree(h0, h0, others)
  {
    hide Load, Read, Write;
    WordsCopy(h0, base, es, p);
    WriteAgree(h0, p, Read(h0, base, 8 * |es|), others);
  }

  // Appending in place: the word, then the length.
  lemma AppendInPlace(h: Bytes, v: int, es: seq<int>, x: i64)
    requires Sane(h) && Vec(h, v, es) && |es| < Hdr(h, v).cap
    ensures var h' := Store(Store(h, Hdr(h, v).addr + 8 * |es|, x), v + 8, |es| + 1);
            && h'.Keys == h.Keys && Vec(h', v, es + [x]) && VecFoot(h', v) == VecFoot(h, v)
            && Agree(h, h', h.Keys - VecFoot(h, v)) && Hdr(h', v).cap == Hdr(h, v).cap
  {
    hide Load, Store, Words;
    VecBounds(h, v, es);
    VecAllocated(h, v, es);
    var r := Hdr(h, v);
    HasPart(h, r.addr, 8 * r.cap, r.addr, 8 * |es| + 8);
    WordsAppend(h, r.addr, es, x);
    var h1 := Store(h, r.addr + 8 * |es|, x);
    SubSpan(r.addr + 8 * |es|, 8, r.addr, 8 * r.cap);
    HdrAgree(h, h1, v, h.Keys - Span(r.addr + 8 * |es|, 8));
    HasKeys(h, h1, v, 24);
    SetLen(h1, v, |es| + 1);
    var h' := Store(h1, v + 8, |es| + 1);
    SubSpan(r.addr, 8 * |es| + 8, r.addr, 8 * r.cap);
    WordsAgree(h1, h', r.addr, es + [x], h.Keys - Span(v, 24));
    HasKeys(h, h', v, 24);
    HasKeys(h, h', r.addr, 8 * r.cap);
    AgreeSubset(h, h1, h.Keys - Span(r.addr + 8 * |es|, 8), h.Keys - VecFoot(h, v));
    AgreeSubset(h1, h', h.Keys - Span(v, 24), h.Keys - VecFoot(h, v));
    AgreeTrans(h, h1, h', h.Keys - VecFoot(h, v));
  }

  // vec_push
  method VecPush(a: Arena, v: int, x: i64, ghost es: seq<int>) returns (ok: bool)
    requires a.Valid() && Vec(a.mem, v, es)
    modifies a
    ensures a.Valid()
    ensures ok ==> Vec(a.mem, v, es + [x]) && VecChanged(old(a.mem), a.mem, v)
    ensures ok ==> Hdr(a.mem, v).cap == NextVecCap(Hdr(old(a.mem), v))
    ensures var cap := Hdr(old(a.mem), v).cap;
            ok ==> Hdr(a.mem, v).cap == if |es| < cap then cap else if cap == 0 then 4 else 2 * cap
    ensures !ok ==> Exhausted(a.mem, 16 * Hdr(old(a.mem), v).cap + 32)
  {
    hide Load, Store, Words, Hdr, Exhausted;
    ghost var h := a.mem;
    ok := VecReserve(a, v, es);
    if !ok {
      return;
    }
    ghost var g := a.mem;
    AppendInPlace(g, v, es, x);
    VecFields(g, v, es);
    var base: int, len: int := Load(a.mem, v), Load(a.mem, v + 8);
    a.StoreI64(base + len * 8, x);
    StoreKeys(g, base + len * 8, x);
    HasKeys(g, a.mem, v + 8, 8);
    a.StoreI64(v + 8, len + 1);
    ChangedTwice(h, g, a.mem, v);
  }

  lemma VecFields(h: Bytes, v: int, es: seq<int>)
    requires Vec(h, v, es) && |es| < Hdr(h, v).cap
    ensures Load(h, v) == Hdr(h, v).addr && Load(h, v + 8) == |es|
    ensures Has(h, Hdr(h, v).addr + 8 * |es|, 8) && Has(h, v + 8, 8)
  {
    hide Load, Words;
    HasPart(h, Hdr(h, v).addr, 8 * Hdr(h, v).cap, Hdr(h, v).addr + 8 * |es|, 8);
    HasPart(h, v, 24, v + 8, 8);
  }

  lemma ChangedTwice(h: Bytes, g: Bytes, h': Bytes, v: int)
    requires VecChanged(h, g, v) && h'.Keys == g.Keys && VecFoot(h', v) == VecFoot(g, v)
    requires Agree(g, h', g.Keys - VecFoot(g, v))
    ensures VecChanged(h, h', v)
  {
    hide Hdr;
    AgreeSubset(g, h', g.Keys - VecFoot(g, v), h.Keys - VecFoot(h, v));
    AgreeTrans(h, g, h', h.Keys - VecFoot(h, v));
  }
}
