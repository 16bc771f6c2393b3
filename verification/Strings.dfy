/**
 String handles on the byte heap: records [addr | len | cap] over backing stores that
 handles share, bytes written by overlapping 8-byte stores, and zero-copy slices.
 */
module Strings {
  import opened Fixed
  import opened Heap

  datatype Rec = Rec(addr: int, len: int, cap: int)

  ghost function Hdr(h: Bytes, s: int): Rec { Rec(Load(h, s), Load(h, s + 8), Load(h, s + 16)) }

  lemma HdrFields(h: Bytes, s: int)
    ensures Hdr(h, s) == Rec(Load(h, s), Load(h, s + 8), Load(h, s + 16))
  {
  }

  // Handle s reads as the bytes t.
  ghost predicate Text(h: Bytes, s: int, t: seq<int>) {
    && Has(h, s, 24) && Hdr(h, s).len == |t|
    && Has(h, Hdr(h, s).addr, |t|) && Read(h, Hdr(h, s).addr, |t|) == t
  }

  // What reading through s looks at.
  ghost function Foot(h: Bytes, s: int): set<int> { Span(s, 24) + Span(Hdr(h, s).addr, Hdr(h, s).len) }

  // The part of its backing store that an append to s would write: from len to the end of
  // the seven-byte pad.
  ghost function Spare(h: Bytes, s: int): set<int> { SpareOf(Hdr(h, s)) }

  ghost function SpareOf(r: Rec): set<int> {
    if r.len < r.cap then Span(r.addr + r.len, r.cap + 7 - r.len) else {}
  }

  // A handle that may be appended to.
  ghost predicate Str(h: Bytes, s: int, t: seq<int>) {
    && Text(h, s, t)
    && var r := Hdr(h, s);
       && (r.cap == 0 || |t| <= r.cap) && r.cap >= 0
       && (|t| < r.cap ==> Has(h, r.addr + |t|, r.cap + 7 - |t|))
       && Spare(h, s) !! Foot(h, s)
  }

  // ----- what other handles see

  // h became h': nothing changed outside spare, and what the new handle may write later is
  // either part of spare or new.
  ghost predicate Appended(h: Bytes, h': Bytes, spare: set<int>, s': int) {
    && h.Keys <= h'.Keys && Agree(h, h', h.Keys - spare)
    && Spare(h', s') !! h.Keys - spare
  }

  lemma FootAllocated(h: Bytes, v: int, t: seq<int>)
    requires Text(h, v, t)
    ensures Foot(h, v) <= h.Keys
  {
  }

  lemma TextAgree(h: Bytes, h': Bytes, v: int, t: seq<int>, cells: set<int>)
    requires Text(h, v, t) && Foot(h, v) <= cells && Agree(h, h', cells)
    ensures Text(h', v, t) && Hdr(h', v) == Hdr(h, v)
  {
    hide Load, Read;
    HdrAgree(h, h', v, cells);
    ReadAgree(h, h', v, 24, cells);
    ReadAgree(h, h', Hdr(h, v).addr, |t|, cells);
  }

  lemma HdrAgree(h: Bytes, h': Bytes, v: int, cells: set<int>)
    requires Span(v, 24) <= cells && Agree(h, h', cells)
    ensures Hdr(h', v) == Hdr(h, v)
  {
    hide Load;
    SubSpan(v, 8, v, 24);
    SubSpan(v + 8, 8, v, 24);
    SubSpan(v + 16, 8, v, 24);
    LoadAgree(h, h', v, cells);
    LoadAgree(h, h', v + 8, cells);
    LoadAgree(h, h', v + 16, cells);
  }

  lemma SubSpan(a: int, n: int, b: int, m: int)
    requires b <= a && a + n <= b + m
    ensures Span(a, n) <= Span(b, m)
  {
    forall x | x in Span(a, n) ensures x in Span(b, m) {
      assert In(x, b, m);
    }
  }

  // An append through the newest handle leaves every handle or slice whose bytes are not in
  // its spare capacity reading exactly what it read, and safe from the next append too.
  lemma AppendKeepsOlder(h: Bytes, h': Bytes, spare: set<int>, s': int, v: int, t: seq<int>)
    requires Appended(h, h', spare, s') && Text(h, v, t) && Foot(h, v) !! spare
    ensures Text(h', v, t) && Foot(h', v) == Foot(h, v) && Foot(h', v) !! Spare(h', s')
  {
    hide Hdr, Text, Agree;
    FootAllocated(h, v, t);
    TextAgree(h, h', v, t, h.Keys - spare);
  }

  // ----- records

  lemma ApartSpans(a: int, n: int, b: int, m: int)
    requires a + n <= b || b + m <= a
    ensures Span(a, n) !! Span(b, m)
  {
  }

  // The three stores that fill a record.
  lemma FillRec(h: Bytes, rec: int, r: Rec)
    requires Has(h, rec, 24) && IsI64(r.addr) && IsI64(r.len) && IsI64(r.cap)
    ensures var h' := Store(Store(Store(h, rec, r.addr), rec + 8, r.len), rec + 16, r.cap);
            && h'.Keys == h.Keys && Agree(h, h', h.Keys - Span(rec, 24)) && Hdr(h', rec) == r
  {
    hide Load, Store, Has;
    var h1 := Store(h, rec, r.addr);
    var h2 := Store(h1, rec + 8, r.len);
    var h3 := Store(h2, rec + 16, r.cap);
    var rest := h.Keys - Span(rec, 24);
    SubSpan(rec, 8, rec, 24);
    SubSpan(rec + 8, 8, rec, 24);
    SubSpan(rec + 16, 8, rec, 24);
    StoreAgree(h, rec, r.addr, rest);
    StoreAgree(h1, rec + 8, r.len, rest + Span(rec, 8)) by { ApartSpans(rec, 8, rec + 8, 8); }
    StoreAgree(h2, rec + 16, r.cap, rest + Span(rec, 8) + Span(rec + 8, 8)) by {
      ApartSpans(rec, 8, rec + 16, 8);
      ApartSpans(rec + 8, 8, rec + 16, 8);
    }
    HasPart(h, rec, 24, rec, 8);
    HasPart(h, rec, 24, rec + 8, 8);
    HasPart(h, rec, 24, rec + 16, 8);
    HasKeys(h, h1, rec + 8, 8);
    HasKeys(h, h2, rec + 16, 8);
    LoadStore(h, rec, r.addr);
    LoadStore(h1, rec + 8, r.len);
    LoadStore(h2, rec + 16, r.cap);
    LoadAgree(h1, h2, rec, rest + Span(rec, 8));
    LoadAgree(h2, h3, rec, rest + Span(rec, 8) + Span(rec + 8, 8));
    LoadAgree(h2, h3, rec + 8, rest + Span(rec, 8) + Span(rec + 8, 8));
  }

  lemma HasPart(h: Bytes, a: int, n: int, b: int, m: int)
    requires Has(h, a, n) && a <= b && b + m <= a + n
    ensures Has(h, b, m)
  {
  }

  lemma HasKeys(h: Bytes, h': Bytes, a: int, n: int)
    requires Has(h, a, n) && h.Keys <= h'.Keys
    ensures Has(h', a, n)
  {
  }

  // The three stores of a record.
  method WriteRec(a: Arena, rec: int, addr: int, len: int, cap: int)
    requires a.Valid() && Has(a.mem, rec, 24) && IsI64(addr) && IsI64(len) && IsI64(cap)
    modifies a
    ensures a.Valid() && a.mem.Keys == old(a.mem).Keys && Hdr(a.mem, rec) == Rec(addr, len, cap)
    ensures Agree(old(a.mem), a.mem, old(a.mem).Keys - Span(rec, 24)) && Has(a.mem, rec, 24)
  {
    hide Hdr, Store;
    ghost var h := a.mem;
    FillRec(h, rec, Rec(addr, len, cap));
    HasPart(h, rec, 24, rec, 8);
    a.StoreI64(rec, addr);
    StoreKeys(h, rec, addr);
    HasPart(a.mem, rec, 24, rec + 8, 8);
    ghost var h1 := a.mem;
    a.StoreI64(rec + 8, len);
    StoreKeys(h1, rec + 8, len);
    HasPart(a.mem, rec, 24, rec + 16, 8);
    a.StoreI64(rec + 16, cap);
    HasKeys(h, a.mem, rec, 24);
  }

  // A fresh record; 0 when malloc fails.
  method MakeRec(a: Arena, addr: int, len: int, cap: int) returns (rec: int)
    requires a.Valid() && IsI64(addr) && IsI64(len) && IsI64(cap)
    modifies a
    ensures a.Valid() && rec >= 0
    ensures rec == 0 ==> a.mem == old(a.mem) && Exhausted(a.mem, 24)
    ensures rec > 0 ==> Span(rec, 24) !! old(a.mem).Keys && a.mem.Keys == old(a.mem).Keys + Span(rec, 24)
    ensures rec > 0 ==> Agree(old(a.mem), a.mem, old(a.mem).Keys) && Has(a.mem, rec, 24)
    ensures rec > 0 ==> Hdr(a.mem, rec) == Rec(addr, len, cap)
  {
    hide Hdr, Store, Exhausted;
    rec := a.Alloc(24);
    if rec == 0 {
      return;
    }
    ghost var h := a.mem;
    SpanHas(h, rec, 24);
    WriteRec(a, rec, addr, len, cap);
    AgreeSubset(h, a.mem, h.Keys - Span(rec, 24), old(a.mem).Keys);
    AgreeTrans(old(a.mem), h, a.mem, old(a.mem).Keys);
  }

  lemma SpanHas(h: Bytes, a: int, n: int)
    requires Span(a, n) <= h.Keys
    ensures Has(h, a, n)
  {
    forall x | a <= x < a + n ensures x in h {
      assert In(x, a, n) && x in Span(a, n);
    }
  }

  lemma StoreKeys(h: Bytes, a: int, v: int)
    ensures Store(h, a, v).Keys == h.Keys
  {
  }

  // ----- appending one byte

  datatype Pushed = Pushed(handle: int) | OutOfBounds | NoMemory

  function GrowCap(cap: int): int { if cap == 0 then 16 else cap * 2 }

  function NextCap(r: Rec): int { if r.len < r.cap then r.cap else GrowCap(r.cap) }

  lemma EncodeLow(b: int)
    requires 0 <= b < 256
    ensures Encode(U64(b), 8)[0] == b
  {
  }

  // The 8-byte store at base + n puts the byte after n bytes already there.
  lemma StoreByte(h: Bytes, base: int, n: nat, b: int)
    requires 0 <= b < 256 && Has(h, base, n + 8)
    ensures var h' := Store(h, base + n, b);
            && h'.Keys == h.Keys && Agree(h, h', h.Keys - Span(base + n, 8))
            && Read(h', base, n + 1) == Read(h, base, n) + [b]
  {
    hide Encode;
    var e := Encode(U64(b), 8);
    var h' := Store(h, base + n, b);
    StoreAgree(h, base + n, b, h.Keys - Span(base + n, 8));
    EncodeLow(b);
    forall i | 0 <= i < n + 1 ensures Read(h', base, n + 1)[i] == (Read(h, base, n) + [b])[i] {
      assert base + i in h;
    }
  }

  // The new header completes an append whose bytes are in place at addr.
  lemma FinishPush(h: Bytes, h1: Bytes, h2: Bytes, spare: set<int>, s': int, r: Rec, t: seq<int>)
    requires h.Keys <= h1.Keys <= h2.Keys && Agree(h, h1, h.Keys - spare) && Agree(h1, h2, h1.Keys)
    requires Span(s', 24) !! h1.Keys && Has(h2, s', 24) && Hdr(h2, s') == r
    requires r.len == |t| <= r.cap && Has(h1, r.addr, r.cap + 7) && Read(h1, r.addr, |t|) == t
    requires |t| < r.cap ==> Span(r.addr + |t|, r.cap + 7 - |t|) !! h.Keys - spare
    ensures Str(h2, s', t) && Appended(h, h2, spare, s')
  {
    hide Hdr, Read;
    AgreeSubset(h1, h2, h1.Keys, h.Keys - spare);
    AgreeTrans(h, h1, h2, h.Keys - spare);
    HasKeys(h1, h2, r.addr, r.cap + 7);
    HasPart(h1, r.addr, r.cap + 7, r.addr, |t|);
    SpanInKeys(h1, r.addr, r.cap + 7);
    SubSpan(r.addr, |t|, r.addr, r.cap + 7);
    ReadAgree(h1, h2, r.addr, |t|, h1.Keys);
    if |t| < r.cap {
      SubSpan(r.addr + |t|, r.cap + 7 - |t|, r.addr, r.cap + 7);
      ApartSpans(r.addr, |t|, r.addr + |t|, r.cap + 7 - |t|);
      HasPart(h2, r.addr, r.cap + 7, r.addr + |t|, r.cap + 7 - |t|);
    }
  }

  lemma SpanInKeys(h: Bytes, a: int, n: int)
    requires Has(h, a, n)
    ensures Span(a, n) <= h.Keys
  {
  }

  // Bounds on the header of an appendable string.
  lemma HdrBounds(h: Bytes, s: int, t: seq<int>)
    requires Sane(h) && Str(h, s, t)
    ensures var r := Hdr(h, s); 0 <= r.cap < ADDRESS_LIMIT && |t| < ADDRESS_LIMIT && IsI64(r.addr)
  {
    var r := Hdr(h, s);
    if |t| > 0 {
      assert r.addr in h && r.addr + |t| - 1 in h;
    }
    if |t| < r.cap {
      assert r.addr + |t| in h && r.addr + r.cap + 6 in h;
    }
  }

  // t sits at base with its capacity and the pad, and all of the room after it is
  // either the spare capacity of the handle being appended to or new.
  ghost predicate Reserved(h: Bytes, h': Bytes, spare: set<int>, base: int, cap: int, t: seq<int>) {
    && h.Keys <= h'.Keys && Agree(h, h', h.Keys - spare)
    && |t| <= cap && Has(h', base, cap + 7) && Read(h', base, |t|) == t
    && Span(base + |t|, cap + 7 - |t|) !! h.Keys - spare
  }

  lemma ReserveInPlace(h: Bytes, s: int, t: seq<int>)
    requires Str(h, s, t) && |t| < Hdr(h, s).cap
    ensures Reserved(h, h, Spare(h, s), Hdr(h, s).addr, Hdr(h, s).cap, t)
  {
    hide Load, Read;
    var r := Hdr(h, s);
    forall x | r.addr <= x < r.addr + r.cap + 7 ensures x in h {
    }
  }

  // A block of n bytes was added at p and the text copied into it.
  lemma ReserveGrown(h: Bytes, h0: Bytes, s: int, t: seq<int>, p: int, cap: int)
    requires Str(h, s, t) && |t| <= cap
    requires Span(p, cap + 7) !! h.Keys && h0.Keys == h.Keys + Span(p, cap + 7) && Agree(h, h0, h.Keys)
    ensures Has(h0, p, |t|) && Has(h0, Hdr(h, s).addr, |t|)
    ensures Reserved(h, Write(h0, p, Read(h0, Hdr(h, s).addr, |t|)), Spare(h, s), p, cap, t)
  {
    hide Load, Read, Write;
    var base := Hdr(h, s).addr;
    SpanInKeys(h, base, |t|);
    ReadAgree(h, h0, base, |t|, h.Keys);
    SpanHas(h0, p, cap + 7);
    HasPart(h0, p, cap + 7, p, |t|);
    var h' := Write(h0, p, t);
    SubSpan(p, |t|, p, cap + 7);
    SubSpan(p + |t|, cap + 7 - |t|, p, cap + 7);
    WriteAgree(h0, p, t, h.Keys);
    AgreeTrans(h, h0, h', h.Keys);
    AgreeSubset(h, h', h.Keys, h.Keys - Spare(h, s));
    ReadWrite(h0, p, t);
    HasKeys(h0, h', p, cap + 7);
  }

  datatype Room = Room(base: int, cap: int) | Short | Full

  // Reuse the backing store while there is spare capacity, else double it.
  method Reserve(a: Arena, s: int, ghost t: seq<int>) returns (r: Room)
    requires a.Valid() && Str(a.mem, s, t)
    modifies a
    ensures a.Valid()
    ensures r.Room? ==> Reserved(old(a.mem), a.mem, Spare(old(a.mem), s), r.base, r.cap, t) && |t| < r.cap
    ensures r.Room? ==> IsI64(r.base) && IsI64(r.cap) && r.cap == NextCap(Hdr(old(a.mem), s))
    ensures r.Short? ==> Hdr(old(a.mem), s).cap == 0 && |t| >= 16
    ensures Hdr(old(a.mem), s).cap == 0 && |t| >= 16 ==> !r.Room?
    ensures r.Full? ==> Exhausted(a.mem, 2 * Hdr(old(a.mem), s).cap + 24)
  {
    hide Load, Read, Write, Reserved;
    ghost var h := a.mem;
    HdrBounds(h, s, t);
    var base, len, cap := Load(a.mem, s), Load(a.mem, s + 8), Load(a.mem, s + 16);
    if len < cap {
      ReserveInPlace(h, s, t);
      return Room(base, cap);
    }
    var newCap := GrowCap(cap);
    var newBase := a.Alloc(newCap + 7);
    if newBase == 0 {
      return Full;
    }
    if len + 8 > newCap + 7 {
      return Short;
    }
    ReserveGrown(h, a.mem, s, t, newBase, newCap);
    a.Copy(newBase, base, len);
    return Room(newBase, newCap);
  }

  lemma AfterStore(h: Bytes, h0: Bytes, h1: Bytes, spare: set<int>, base: int, cap: int, t: seq<int>)
    requires Reserved(h, h0, spare, base, cap, t) && |t| < cap
    requires h1.Keys == h0.Keys && Agree(h0, h1, h0.Keys - Span(base + |t|, 8))
    ensures Agree(h, h1, h.Keys - spare) && Has(h1, base, cap + 7)
    ensures Span(base + |t| + 1, cap + 7 - |t| - 1) !! h.Keys - spare
  {
    hide Read;
    SubSpan(base + |t|, 8, base + |t|, cap + 7 - |t|);
    SubSpan(base + |t| + 1, cap + 7 - |t| - 1, base + |t|, cap + 7 - |t|);
    AgreeSubset(h0, h1, h0.Keys - Span(base + |t|, 8), h.Keys - spare);
    AgreeTrans(h, h0, h1, h.Keys - spare);
  }

  lemma LengthOf(h: Bytes, s: int, t: seq<int>)
    requires Sane(h) && Str(h, s, t)
    ensures Load(h, s + 8) == |t| < ADDRESS_LIMIT && Hdr(h, s).cap >= 0
  {
    hide Load;
    HdrBounds(h, s, t);
  }

  // string_push_byte: the new handle reads the old bytes and the new one, and nothing that
  // other handles read has changed.  The copy or the 8-byte store runs past the new block
  // exactly when a zero-capacity slice of sixteen bytes or more is appended to.
  method PushByte(a: Arena, s: int, b: int, ghost t: seq<int>) returns (r: Pushed)
    requires a.Valid() && Str(a.mem, s, t)
    modifies a
    ensures a.Valid()
    ensures r.Pushed? ==> Str(a.mem, r.handle, t + [b % 256])
    ensures r.Pushed? ==> Appended(old(a.mem), a.mem, Spare(old(a.mem), s), r.handle)
    ensures r.Pushed? ==> Hdr(a.mem, r.handle).cap == NextCap(Hdr(old(a.mem), s))
    ensures var cap := Hdr(old(a.mem), s).cap;
            r.Pushed? ==> Hdr(a.mem, r.handle).cap == if |t| < cap then cap else if cap == 0 then 16 else 2 * cap
    ensures r.OutOfBounds? ==> Hdr(old(a.mem), s).cap == 0 && |t| >= 16
    ensures Hdr(old(a.mem), s).cap == 0 && |t| >= 16 ==> !r.Pushed?
    ensures r.NoMemory? ==> Exhausted(a.mem, 2 * Hdr(old(a.mem), s).cap + 24)
  {
    hide Load, Read, Store, Hdr, Str, Spare, Text, Exhausted, SpareOf;
    ghost var h, spare := a.mem, Spare(a.mem, s);
    LengthOf(h, s, t);
    var n := Load(a.mem, s + 8);
    var room := Reserve(a, s, t);
    match room
    case Short => return OutOfBounds;
    case Full => return NoMemory;
    case Room(base, cap) =>
      ghost var h0 := a.mem;
      HasPart(h0, base, cap + 7, base, n + 8);
      HasPart(h0, base, cap + 7, base + n, 8);
      StoreByte(h0, base, n, b % 256);
      a.StoreI64(base + n, b % 256);
      ghost var h1 := a.mem;
      AfterStore(h, h0, h1, spare, base, cap, t);
      var rec := MakeRec(a, base, n + 1, cap);
      if rec == 0 {
        MoreExhausted(a.mem, 24, 2 * Hdr(h, s).cap + 24);
        return NoMemory;
      }
      FinishPush(h, h1, a.mem, spare, rec, Rec(base, n + 1, cap), t + [b % 256]);
      NextCapIs(h, s, t);
      return Pushed(rec);
  }

  lemma NextCapIs(h: Bytes, s: int, t: seq<int>)
    requires Str(h, s, t)
    ensures var cap := Hdr(h, s).cap; NextCap(Hdr(h, s)) == if |t| < cap then cap else if cap == 0 then 16 else 2 * cap
  {
    hide Load, Read;
  }

  lemma MoreExhausted(h: Bytes, n: int, m: int)
    requires Exhausted(h, n) && n <= m
    ensures Exhausted(h, m)
  {
  }
}
