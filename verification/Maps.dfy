/**
 Insertion-ordered maps on the byte heap: every insert makes a new record
 [keys | vals | len | cap] over backing stores it may share with older records.
 */
module Maps {
  import opened Fixed
  import opened Heap
  import opened Strings
  import opened Vectors

  datatype MapRec = MapRec(keys: int, vals: int, len: int, cap: int)

  ghost function MHdr(h: Bytes, m: int): MapRec {
    MapRec(Load(h, m), Load(h, m + 8), Load(h, m + 16), Load(h, m + 24))
  }

  // Handle m reads as these keys with these values, in insertion order.
  ghost predicate Entries(h: Bytes, m: int, ks: seq<int>, vs: seq<int>) {
    && Has(h, m, 32)
    && var r := MHdr(h, m);
       r.len == |ks| == |vs| && Words(h, r.keys, ks) && Words(h, r.vals, vs)
  }

  // What reading through m looks at.
  ghost function Foot(h: Bytes, m: int): set<int> {
    var r := MHdr(h, m);
    Span(m, 32) + Span(r.keys, 8 * r.len) + Span(r.vals, 8 * r.len)
  }

  // The slots an insert into m would write.
  ghost function Spare(h: Bytes, m: int): set<int> { SpareOf(MHdr(h, m)) }

  ghost function SpareOf(r: MapRec): set<int> {
    if r.len < r.cap then Span(r.keys + 8 * r.len, 8 * (r.cap - r.len)) + Span(r.vals + 8 * r.len, 8 * (r.cap - r.len))
    else {}
  }

  // Both stores have their full capacity and do not overlap.
  ghost predicate Stores(h: Bytes, keys: int, vals: int, cap: int) {
    Has(h, keys, 8 * cap) && Has(h, vals, 8 * cap) && Span(keys, 8 * cap) !! Span(vals, 8 * cap)
  }

  // A handle that may be inserted into.
  ghost predicate Map(h: Bytes, m: int, ks: seq<int>, vs: seq<int>) {
    && Entries(h, m, ks, vs) && Stores(h, MHdr(h, m).keys, MHdr(h, m).vals, MHdr(h, m).cap)
    && |ks| <= MHdr(h, m).cap && Spare(h, m) !! Span(m, 32)
  }

  // h became h': nothing changed outside spare, and what m' may write later is either part
  // of spare or new.
  ghost predicate Inserted(h: Bytes, h': Bytes, spare: set<int>, m': int) {
    h.Keys <= h'.Keys && Agree(h, h', h.Keys - spare) && Spare(h', m') !! h.Keys - spare
  }

  // ----- what other handles see

  lemma MHdrAgree(h: Bytes, h': Bytes, m: int, cells: set<int>)
    requires Span(m, 32) <= cells && Agree(h, h', cells)
    ensures MHdr(h', m) == MHdr(h, m)
  {
    hide Load;
    SubSpan(m, 8, m, 32);
    SubSpan(m + 8, 8, m, 32);
    SubSpan(m + 16, 8, m, 32);
    SubSpan(m + 24, 8, m, 32);
    LoadAgree(h, h', m, cells);
    LoadAgree(h, h', m + 8, cells);
    LoadAgree(h, h', m + 16, cells);
    LoadAgree(h, h', m + 24, cells);
  }

  lemma EntriesAgree(h: Bytes, h': Bytes, m: int, ks: seq<int>, vs: seq<int>, cells: set<int>)
    requires Entries(h, m, ks, vs) && Foot(h, m) <= cells && Agree(h, h', cells)
    ensures Entries(h', m, ks, vs) && MHdr(h', m) == MHdr(h, m)
  {
    hide Load, Read, Words;
    MHdrAgree(h, h', m, cells);
    ReadAgree(h, h', m, 32, cells);
    WordsAgree(h, h', MHdr(h, m).keys, ks, cells);
    WordsAgree(h, h', MHdr(h, m).vals, vs, cells);
  }

  lemma FootAllocated(h: Bytes, m: int, ks: seq<int>, vs: seq<int>)
    requires Entries(h, m, ks, vs)
    ensures Foot(h, m) <= h.Keys
  {
    hide Load;
    SpanInKeys(h, m, 32);
    SpanInKeys(h, MHdr(h, m).keys, 8 * |ks|);
    SpanInKeys(h, MHdr(h, m).vals, 8 * |ks|);
  }

  // The entries of an insertable handle are out of its own inserts' reach.
  lemma FootOffSpare(h: Bytes, m: int, ks: seq<int>, vs: seq<int>)
    requires Map(h, m, ks, vs)
    ensures Foot(h, m) !! Spare(h, m)
  {
    hide Load, Words;
    var r := MHdr(h, m);
    if r.len < r.cap {
      SubSpan(r.keys, 8 * r.len, r.keys, 8 * r.cap);
      SubSpan(r.vals, 8 * r.len, r.vals, 8 * r.cap);
      SubSpan(r.keys + 8 * r.len, 8 * (r.cap - r.len), r.keys, 8 * r.cap);
      SubSpan(r.vals + 8 * r.len, 8 * (r.cap - r.len), r.vals, 8 * r.cap);
      ApartSpans(r.keys, 8 * r.len, r.keys + 8 * r.len, 8 * (r.cap - r.len));
      ApartSpans(r.vals, 8 * r.len, r.vals + 8 * r.len, 8 * (r.cap - r.len));
    }
  }

  // An insert through the newest handle leaves every handle whose entries are not in its
  // spare slots reading exactly what it read, and safe from the next insert too.
  lemma InsertKeepsOlder(h: Bytes, h': Bytes, spare: set<int>, m': int, m: int, ks: seq<int>, vs: seq<int>)
    requires Inserted(h, h', spare, m') && Entries(h, m, ks, vs) && Foot(h, m) !! spare
    ensures Entries(h', m, ks, vs) && Foot(h', m) == Foot(h, m) && Foot(h', m) !! Spare(h', m')
  {
    hide MHdr, Entries, Agree;
    FootAllocated(h, m, ks, vs);
    EntriesAgree(h, h', m, ks, vs, h.Keys - spare);
  }

  // ----- records

  lemma FillMapRec(h: Bytes, rec: int, r: MapRec)
    requires Has(h, rec, 32) && IsI64(r.keys) && IsI64(r.vals) && IsI64(r.len) && IsI64(r.cap)
    ensures var h' := Store(Store(Store(Store(h, rec, r.keys), rec + 8, r.vals), rec + 16, r.len), rec + 24, r.cap);
            && h'.Keys == h.Keys && Agree(h, h', h.Keys - Span(rec, 32)) && MHdr(h', rec) == r
  {
    hide Load, Store, Hdr;
    HasPart(h, rec, 32, rec, 24);
    HasPart(h, rec, 32, rec + 24, 8);
    FillRec(h, rec, Rec(r.keys, r.vals, r.len));
    var h3 := Store(Store(Store(h, rec, r.keys), rec + 8, r.vals), rec + 16, r.len);
    var h4 := Store(h3, rec + 24, r.cap);
    SubSpan(rec, 24, rec, 32);
    SubSpan(rec + 24, 8, rec, 32);
    ApartSpans(rec, 24, rec + 24, 8);
    StoreAgree(h3, rec + 24, r.cap, h.Keys - Span(rec, 32) + Span(rec, 24));
    HasKeys(h, h3, rec + 24, 8);
    LoadStore(h3, rec + 24, r.cap);
    HdrAgree(h3, h4, rec, h.Keys - Span(rec, 32) + Span(rec, 24));
    HdrFields(h4, rec);
    AgreeSubset(h, h3, h.Keys - Span(rec, 24), h.Keys - Span(rec, 32));
    AgreeSubset(h3, h4, h.Keys - Span(rec, 32) + Span(rec, 24), h.Keys - Span(rec, 32));
    AgreeTrans(h, h3, h4, h.Keys - Span(rec, 32));
  }

  // A fresh map record; 0 when malloc fails.
  method MakeMapRec(a: Arena, r: MapRec) returns (rec: int)
    requires a.Valid() && IsI64(r.keys) && IsI64(r.vals) && IsI64(r.len) && IsI64(r.cap)
    modifies a
    ensures a.Valid() && rec >= 0
    ensures rec == 0 ==> a.mem == old(a.mem) && Exhausted(a.mem, 32)
    ensures rec > 0 ==> Span(rec, 32) !! old(a.mem).Keys && a.mem.Keys == old(a.mem).Keys + Span(rec, 32)
    ensures rec > 0 ==> Agree(old(a.mem), a.mem, old(a.mem).Keys) && Has(a.mem, rec, 32)
    ensures rec > 0 ==> MHdr(a.mem, rec) == r
  {
    hide MHdr, Store, Exhausted;
    rec := a.Alloc(32);
    if rec == 0 {
      return;
    }
    ghost var h := a.mem;
    SpanHas(h, rec, 32);
    FillMapRec(h, rec, r);
    StoreField(a, rec, 32, 0, r.keys);
    StoreField(a, rec, 32, 8, r.vals);
    StoreField(a, rec, 32, 16, r.len);
    StoreField(a, rec, 32, 24, r.cap);
    HasKeys(h, a.mem, rec, 32);
    AgreeSubset(h, a.mem, h.Keys - Span(rec, 32), old(a.mem).Keys);
    AgreeTrans(old(a.mem), h, a.mem, old(a.mem).Keys);
  }

  // One field of an n-byte record.
  method StoreField(a: Arena, rec: int, n: int, off: int, v: int)
    requires a.Valid() && Has(a.mem, rec, n) && 0 <= off && off + 8 <= n
    modifies a
    ensures a.Valid() && a.mem == Store(old(a.mem), rec + off, v) && Has(a.mem, rec, n)
  {
    hide Store;
    ghost var h := a.mem;
    HasPart(h, rec, n, rec + off, 8);
    a.StoreI64(rec + off, v);
    StoreKeys(h, rec + off, v);
    HasKeys(h, a.mem, rec, n);
  }

  // map_new; 0 when malloc fails.
  method MapNew(a: Arena) returns (m: int)
    requires a.Valid()
    modifies a
    ensures a.Valid() && m >= 0 && (m == 0 ==> Exhausted(a.mem, 32))
    ensures m > 0 ==> Map(a.mem, m, [], []) && Inserted(old(a.mem), a.mem, {}, m) && MHdr(a.mem, m).cap == 0
  {
    hide Load, Exhausted;
    m := MakeMapRec(a, MapRec(0, 0, 0, 0));
    if m > 0 {
      assert Span(0, 0) == {};
      assert old(a.mem).Keys - {} == old(a.mem).Keys;
    }
  }

  // ----- insertion

  // The entries sit in stores with room for one more, and that room is either the spare slots
  // of the handle inserted into or new.
  ghost predicate Reserved(h: Bytes, h': Bytes, spare: set<int>, r: MapRec, ks: seq<int>, vs: seq<int>) {
    && h.Keys <= h'.Keys && Agree(h, h', h.Keys - spare)
    && r.len == |ks| == |vs| < r.cap && Stores(h', r.keys, r.vals, r.cap) && Words(h', r.keys, ks) && Words(h', r.vals, vs)
    && SpareOf(r) !! h.Keys - spare
  }

  lemma ReserveInPlace(h: Bytes, m: int, ks: seq<int>, vs: seq<int>)
    requires Map(h, m, ks, vs) && |ks| < MHdr(h, m).cap
    ensures Reserved(h, h, Spare(h, m), MHdr(h, m), ks, vs)
  {
    hide Load, Words;
  }

  function NextMapCap(r: MapRec): int { if r.len < r.cap then r.cap else if r.cap == 0 then 4 else r.cap * 2 }

  lemma MapBounds(h: Bytes, m: int, ks: seq<int>, vs: seq<int>)
    requires Sane(h) && Map(h, m, ks, vs)
    ensures var r := MHdr(h, m);
            0 <= |ks| <= r.cap && 8 * r.cap < ADDRESS_LIMIT && (r.cap > 0 ==> r.keys > 0) && IsI64(r.keys) && IsI64(r.vals)
  {
    hide Load, Words;
    var r := MHdr(h, m);
    if r.cap > 0 {
      assert r.keys in h && r.keys + 8 * r.cap - 1 in h;
    }
  }

  // Two new blocks were added and the words copied into them.
  lemma ReserveGrown(h: Bytes, h1: Bytes, h': Bytes, m: int, ks: seq<int>, vs: seq<int>, p: int, q: int, cap: int)
    requires Map(h, m, ks, vs) && |ks| >= MHdr(h, m).cap && |ks| < cap
    requires h.Keys <= h1.Keys && Agree(h, h1, h.Keys)
    requires Span(p, 8 * cap) !! h.Keys && Span(q, 8 * cap) !! h.Keys && Span(p, 8 * cap) !! Span(q, 8 * cap)
    requires Span(p, 8 * cap) + Span(q, 8 * cap) <= h1.Keys
    requires h'.Keys == h1.Keys && Agree(h1, h', h.Keys) && Words(h', p, ks) && Words(h', q, vs)
    ensures Reserved(h, h', Spare(h, m), MapRec(p, q, |ks|, cap), ks, vs)
  {
    hide Load, Words;
    AgreeTrans(h, h1, h', h.Keys);
    AgreeSubset(h, h', h.Keys, h.Keys - Spare(h, m));
    SpanHas(h', p, 8 * cap);
    SpanHas(h', q, 8 * cap);
    SubSpan(p + 8 * |ks|, 8 * (cap - |ks|), p, 8 * cap);
    SubSpan(q + 8 * |ks|, 8 * (cap - |ks|), q, 8 * cap);
  }

  // Reuse the stores while they have a free slot, else allocate doubled ones and copy.
  method Reserve(a: Arena, m: int, ghost ks: seq<int>, ghost vs: seq<int>) returns (ok: bool, r: MapRec)
    requires a.Valid() && Map(a.mem, m, ks, vs)
    modifies a
    ensures a.Valid()
    ensures ok ==> Reserved(old(a.mem), a.mem, Spare(old(a.mem), m), r, ks, vs)
    ensures ok ==> IsI64(r.keys) && IsI64(r.vals) && IsI64(r.len + 1) && IsI64(r.cap)
    ensures ok && |ks| < MHdr(old(a.mem), m).cap ==> r == MHdr(old(a.mem), m)
    ensures ok && |ks| >= MHdr(old(a.mem), m).cap ==> SpareOf(r) !! old(a.mem).Keys && r.cap == NextMapCap(MHdr(old(a.mem), m))
    ensures !ok ==> Exhausted(a.mem, 16 * MHdr(old(a.mem), m).cap + 32)
  {
    hide Load, Words, Reserved, Exhausted, Stores;
    ghost var h := a.mem;
    MapBounds(h, m, ks, vs);
    r := ReadRec(a, m);
    ok := true;
    if r.len < r.cap {
      ReserveInPlace(h, m, ks, vs);
      return;
    }
    ghost var r0 := r;
    var cap := if r.cap == 0 then 4 else r.cap * 2;
    ok, r := Grow(a, m, r, cap, ks, vs);
    if ok {
      GrownSpare(h.Keys, r, cap, |ks|);
    }
  }

  method ReadRec(a: Arena, m: int) returns (r: MapRec)
    ensures r == MHdr(a.mem, m)
  {
    r := MapRec(Load(a.mem, m), Load(a.mem, m + 8), Load(a.mem, m + 16), Load(a.mem, m + 24));
  }

  lemma GrownSpare(keys: set<int>, r: MapRec, cap: int, n: nat)
    requires r.len == n < cap == r.cap && Span(r.keys, 8 * cap) !! keys && Span(r.vals, 8 * cap) !! keys
    ensures SpareOf(r) !! keys
  {
    SubSpan(r.keys + 8 * n, 8 * (cap - n), r.keys, 8 * cap);
    SubSpan(r.vals + 8 * n, 8 * (cap - n), r.vals, 8 * cap);
  }

  method Grow(a: Arena, m: int, r: MapRec, cap: int, ghost ks: seq<int>, ghost vs: seq<int>) returns (ok: bool, g: MapRec)
    requires a.Valid() && Map(a.mem, m, ks, vs) && r == MHdr(a.mem, m) && |ks| >= r.cap && |ks| < cap == NextMapCap(r)
    modifies a
    ensures a.Valid()
    ensures ok ==> Reserved(old(a.mem), a.mem, Spare(old(a.mem), m), g, ks, vs)
    ensures ok ==> g.len == |ks| && g.cap == cap && IsI64(g.keys) && IsI64(g.vals) && IsI64(g.len + 1) && IsI64(g.cap)
    ensures ok ==> Span(g.keys, 8 * cap) !! old(a.mem).Keys && Span(g.vals, 8 * cap) !! old(a.mem).Keys
    ensures !ok ==> Exhausted(a.mem, 16 * r.cap + 32)
  {
    hide Load, Words, Reserved, Exhausted, Read, Write;
    ghost var h := a.mem;
    MapBounds(h, m, ks, vs);
    g := r;
    var p := a.Alloc(cap * 8);
    if p == 0 {
      MoreExhausted(a.mem, cap * 8, 16 * r.cap + 32);
      return false, g;
    }
    ghost var h0 := a.mem;
    var q := a.Alloc(cap * 8);
    if q == 0 {
      MoreExhausted(a.mem, cap * 8, 16 * r.cap + 32);
      return false, g;
    }
    ghost var h1 := a.mem;
    AgreeSubset(h0, h1, h0.Keys, h.Keys);
    AgreeTrans(h, h0, h1, h.Keys);
    SpanHas(h1, p, 8 * cap);
    SpanHas(h1, q, 8 * cap);
    CopyBoth(a, r, p, q, cap, ks, vs, h);
    g := MapRec(p, q, r.len, cap);
    ReserveGrown(h, h1, a.mem, m, ks, vs, p, q, cap);
    return true, g;
  }

  // The two memcpy calls.
  method CopyBoth(a: Arena, r: MapRec, p: int, q: int, cap: int, ghost ks: seq<int>, ghost vs: seq<int>, ghost h: Bytes)
    requires a.Valid() && r.len == |ks| == |vs| < cap && (r.len > 0 ==> r.keys != 0)
    requires h.Keys <= a.mem.Keys && Agree(h, a.mem, h.Keys) && Words(h, r.keys, ks) && Words(h, r.vals, vs)
    requires Has(a.mem, p, 8 * cap) && Has(a.mem, q, 8 * cap)
    requires Span(p, 8 * cap) !! h.Keys && Span(q, 8 * cap) !! h.Keys && Span(p, 8 * cap) !! Span(q, 8 * cap)
    modifies a
    ensures a.Valid() && a.mem.Keys == old(a.mem).Keys && Agree(old(a.mem), a.mem, h.Keys)
    ensures Words(a.mem, p, ks) && Words(a.mem, q, vs)
  {
    hide Load, Read, Write;
    ghost var h1, n := a.mem, 8 * |ks|;
    SpanInKeys(h, r.keys, n);
    SpanInKeys(h, r.vals, n);
    WordsAgree(h, h1, r.keys, ks, h.Keys);
    WordsAgree(h, h1, r.vals, vs, h.Keys);
    HasPart(h1, p, 8 * cap, p, n);
    HasPart(h1, q, 8 * cap, q, n);
    SubSpan(p, n, p, 8 * cap);
    SubSpan(q, n, q, 8 * cap);
    if r.len > 0 && r.keys != 0 {
      CopyFacts(h1, r.keys, ks, p, h.Keys);
      a.Copy(p, r.keys, r.len * 8);
      ghost var h2 := a.mem;
      WordsAgree(h1, h2, r.vals, vs, h.Keys);
      HasKeys(h1, h2, q, n);
      CopyFacts(h2, r.vals, vs, q, h.Keys + Span(p, n));
      a.Copy(q, r.vals, r.len * 8);
      WordsAgree(h2, a.mem, p, ks, h.Keys + Span(p, n));
      AgreeSubset(h2, a.mem, h.Keys + Span(p, n), h.Keys);
      AgreeTrans(h1, h2, a.mem, h.Keys);
    }
  }

  // The two stores of the new entry put it after the entries already there.
  lemma EntryWords(h: Bytes, r: MapRec, ks: seq<int>, vs: seq<int>, k: i64, v: i64)
    requires r.len == |ks| == |vs| < r.cap && Stores(h, r.keys, r.vals, r.cap)
    requires Words(h, r.keys, ks) && Words(h, r.vals, vs)
    ensures var h2 := Store(Store(h, r.keys + 8 * r.len, k), r.vals + 8 * r.len, v);
            && h2.Keys == h.Keys && Words(h2, r.keys, ks + [k]) && Words(h2, r.vals, vs + [v])
            && Agree(h, h2, h.Keys - Span(r.keys + 8 * r.len, 8) - Span(r.vals + 8 * r.len, 8))
  {
    hide Load, Store, Words, Span, Agree;
    var n := r.len;
    var h1 := Store(h, r.keys + 8 * n, k);
    var h2 := Store(h1, r.vals + 8 * n, v);
    var ek, ev := Span(r.keys + 8 * n, 8), Span(r.vals + 8 * n, 8);
    SubSpan(r.keys + 8 * n, 8, r.keys, 8 * r.cap);
    SubSpan(r.vals + 8 * n, 8, r.vals, 8 * r.cap);
    SubSpan(r.vals, 8 * n, r.vals, 8 * r.cap);
    SubSpan(r.keys, 8 * n + 8, r.keys, 8 * r.cap);
    SpanInKeys(h, r.vals, 8 * r.cap);
    SpanInKeys(h, r.keys, 8 * r.cap);
    HasPart(h, r.keys, 8 * r.cap, r.keys, 8 * n + 8);
    HasPart(h, r.vals, 8 * r.cap, r.vals, 8 * n + 8);
    WordsAppend(h, r.keys, ks, k);
    HasKeys(h, h1, r.vals, 8 * n + 8);
    WordsAgree(h, h1, r.vals, vs, h.Keys - ek);
    WordsAppend(h1, r.vals, vs, v);
    WordsAgree(h1, h2, r.keys, ks + [k], h.Keys - ev);
    AgreeSubset(h, h1, h.Keys - ek, h.Keys - ek - ev);
    AgreeSubset(h1, h2, h.Keys - ev, h.Keys - ek - ev);
    AgreeTrans(h, h1, h2, h.Keys - ek - ev);
  }

  lemma EntryStored(h: Bytes, h0: Bytes, spare: set<int>, r: MapRec, ks: seq<int>, vs: seq<int>, k: i64, v: i64)
    requires Reserved(h, h0, spare, r, ks, vs)
    ensures var h2 := Store(Store(h0, r.keys + 8 * r.len, k), r.vals + 8 * r.len, v);
            && h2.Keys == h0.Keys && Agree(h, h2, h.Keys - spare)
            && Stores(h2, r.keys, r.vals, r.cap) && Words(h2, r.keys, ks + [k]) && Words(h2, r.vals, vs + [v])
            && SpareOf(r.(len := r.len + 1)) !! h.Keys - spare
  {
    hide Load, Store, Words, Span, Agree;
    var n := r.len;
    EntryWords(h0, r, ks, vs, k, v);
    var h2 := Store(Store(h0, r.keys + 8 * n, k), r.vals + 8 * n, v);
    SubSpan(r.keys + 8 * n, 8, r.keys + 8 * n, 8 * (r.cap - n));
    SubSpan(r.vals + 8 * n, 8, r.vals + 8 * n, 8 * (r.cap - n));
    HasKeys(h0, h2, r.keys, 8 * r.cap);
    HasKeys(h0, h2, r.vals, 8 * r.cap);
    AgreeSubset(h0, h2, h0.Keys - Span(r.keys + 8 * n, 8) - Span(r.vals + 8 * n, 8), h.Keys - spare);
    AgreeTrans(h, h0, h2, h.Keys - spare);
    if n + 1 < r.cap {
      SubSpan(r.keys + 8 * (n + 1), 8 * (r.cap - (n + 1)), r.keys + 8 * n, 8 * (r.cap - n));
      SubSpan(r.vals + 8 * (n + 1), 8 * (r.cap - (n + 1)), r.vals + 8 * n, 8 * (r.cap - n));
    }
  }

  // The new record completes the insert.
  lemma FinishInsert(h: Bytes, h1: Bytes, h2: Bytes, spare: set<int>, m': int, r: MapRec, ks: seq<int>, vs: seq<int>)
    requires h.Keys <= h1.Keys <= h2.Keys && Agree(h, h1, h.Keys - spare) && Agree(h1, h2, h1.Keys)
    requires Span(m', 32) !! h1.Keys && Has(h2, m', 32) && MHdr(h2, m') == r
    requires r.len == |ks| == |vs| <= r.cap && Stores(h1, r.keys, r.vals, r.cap) && Words(h1, r.keys, ks) && Words(h1, r.vals, vs)
    requires SpareOf(r) !! h.Keys - spare
    ensures Map(h2, m', ks, vs) && Inserted(h, h2, spare, m')
  {
    hide MHdr, Words;
    AgreeSubset(h1, h2, h1.Keys, h.Keys - spare);
    AgreeTrans(h, h1, h2, h.Keys - spare);
    HasKeys(h1, h2, r.keys, 8 * r.cap);
    HasKeys(h1, h2, r.vals, 8 * r.cap);
    SpanInKeys(h1, r.keys, 8 * r.cap);
    SpanInKeys(h1, r.vals, 8 * r.cap);
    SubSpan(r.keys, 8 * |ks|, r.keys, 8 * r.cap);
    SubSpan(r.vals, 8 * |ks|, r.vals, 8 * r.cap);
    WordsAgree(h1, h2, r.keys, ks, h1.Keys);
    WordsAgree(h1, h2, r.vals, vs, h1.Keys);
    if r.len < r.cap {
      SubSpan(r.keys + 8 * r.len, 8 * (r.cap - r.len), r.keys, 8 * r.cap);
      SubSpan(r.vals + 8 * r.len, 8 * (r.cap - r.len), r.vals, 8 * r.cap);
    }
  }

  // map_insert; 0 when malloc fails.
  method MapInsert(a: Arena, m: int, key: i64, value: i64, ghost ks: seq<int>, ghost vs: seq<int>) returns (m': int)
    requires a.Valid() && Map(a.mem, m, ks, vs)
    modifies a
    ensures a.Valid() && m' >= 0
    ensures m' == 0 ==> Exhausted(a.mem, 16 * MHdr(old(a.mem), m).cap + 32)
    ensures m' > 0 ==> Map(a.mem, m', ks + [key], vs + [value])
    ensures m' > 0 ==> Inserted(old(a.mem), a.mem, Spare(old(a.mem), m), m') && Span(m', 32) !! old(a.mem).Keys
    ensures m' > 0 && |ks| < MHdr(old(a.mem), m).cap ==> MHdr(a.mem, m') == MHdr(old(a.mem), m).(len := |ks| + 1)
    ensures m' > 0 && |ks| >= MHdr(old(a.mem), m).cap ==> Inserted(old(a.mem), a.mem, {}, m')
    ensures var cap := MHdr(old(a.mem), m).cap;
            m' > 0 ==> MHdr(a.mem, m').cap == if |ks| < cap then cap else if cap == 0 then 4 else 2 * cap
  {
    hide Load, Store, Words, MHdr, Spare, Entries, Stores, Exhausted;
    ghost var h, spare := a.mem, Spare(a.mem, m);
    var ok, r := Reserve(a, m, ks, vs);
    if !ok {
      return 0;
    }
    ghost var h0 := a.mem;
    SlotsAllocated(h0, r, |ks|);
    EntryStored(h, h0, spare, r, ks, vs, key, value);
    StoreEntry(a, r, key, value);
    ghost var h1 := a.mem;
    m' := MakeMapRec(a, r.(len := r.len + 1));
    if m' == 0 {
      MapBounds(h, m, ks, vs);
      MoreExhausted(a.mem, 32, 16 * MHdr(h, m).cap + 32);
      return;
    }
    SpareWhenFull(h, m, ks, vs);
    FinishInsert(h, h1, a.mem, spare, m', r.(len := r.len + 1), ks + [key], vs + [value]);
  }

  lemma SpareWhenFull(h: Bytes, m: int, ks: seq<int>, vs: seq<int>)
    requires Map(h, m, ks, vs)
    ensures |ks| >= MHdr(h, m).cap ==> Spare(h, m) == {}
  {
    hide Load, Words;
  }

  lemma SlotsAllocated(h: Bytes, r: MapRec, n: nat)
    requires Stores(h, r.keys, r.vals, r.cap) && n < r.cap
    ensures Has(h, r.keys + 8 * n, 8) && Has(h, r.vals + 8 * n, 8)
  {
  }

  method StoreEntry(a: Arena, r: MapRec, key: int, value: int)
    requires a.Valid() && Has(a.mem, r.keys + 8 * r.len, 8) && Has(a.mem, r.vals + 8 * r.len, 8)
    modifies a
    ensures a.Valid() && a.mem == Store(Store(old(a.mem), r.keys + 8 * r.len, key), r.vals + 8 * r.len, value)
  {
    hide Store;
    ghost var h := a.mem;
    a.StoreI64(r.keys + r.len * 8, key);
    StoreKeys(h, r.keys + r.len * 8, key);
    HasKeys(h, a.mem, r.vals + 8 * r.len, 8);
    a.StoreI64(r.vals + r.len * 8, value);
  }
}
