/**
 Map handles along a chain of inserts, lookup, and what happens off the chain.
 */
module MapFamily {
  import opened Fixed
  import opened Heap
  import opened Strings
  import opened Vectors
  import M = Maps

  // A handle and the entries it was made with.
  datatype View = View(handle: int, ks: seq<int>, vs: seq<int>)

  ghost predicate Holds(h: Bytes, v: View, m: int) {
    M.Entries(h, v.handle, v.ks, v.vs) && M.Foot(h, v.handle) !! M.Spare(h, m)
  }

  // m is the newest handle of its chain; every older one still reads its own entries, out of
  // reach of an insert into m.
  ghost predicate Family(h: Bytes, older: seq<View>, m: int, ks: seq<int>, vs: seq<int>) {
    M.Map(h, m, ks, vs) && forall i | 0 <= i < |older| :: Holds(h, older[i], m)
  }

  lemma FamilyInsert(h: Bytes, h': Bytes, older: seq<View>, m: int, ks: seq<int>, vs: seq<int>, m': int, ks': seq<int>, vs': seq<int>)
    requires Family(h, older, m, ks, vs) && M.Map(h', m', ks', vs') && M.Inserted(h, h', M.Spare(h, m), m')
    ensures Family(h', older + [View(m, ks, vs)], m', ks', vs')
  {
    hide M.MHdr, M.Entries, M.Foot, M.Spare, M.Inserted;
    M.FootOffSpare(h, m, ks, vs);
    var all := older + [View(m, ks, vs)];
    forall i | 0 <= i < |all| ensures Holds(h', all[i], m') {
      if i < |older| {
        assert Holds(h, older[i], m);
      }
      M.InsertKeepsOlder(h, h', M.Spare(h, m), m', all[i].handle, all[i].ks, all[i].vs);
    }
  }

  // Inserting into the newest handle of a chain: the chain is one longer, and every handle on
  // it reads exactly the entries it was made with; 0 when malloc fails.
  method InsertNewest(a: Arena, m: int, key: i64, value: i64, ghost older: seq<View>, ghost ks: seq<int>, ghost vs: seq<int>)
    returns (m': int)
    requires a.Valid() && Family(a.mem, older, m, ks, vs)
    modifies a
    ensures a.Valid() && m' >= 0
    ensures m' == 0 ==> Exhausted(a.mem, 16 * M.MHdr(old(a.mem), m).cap + 32)
    ensures m' > 0 ==> Family(a.mem, older + [View(m, ks, vs)], m', ks + [key], vs + [value])
  {
    hide M.MHdr, M.Map, M.Inserted, M.Spare, Holds, Exhausted;
    ghost var h := a.mem;
    m' := M.MapInsert(a, m, key, value, ks, vs);
    if m' > 0 {
      FamilyInsert(h, a.mem, older, m, ks, vs, m', ks + [key], vs + [value]);
    }
  }

  // ----- lookup

  // The value inserted first for a key, 0 when there is none.
  function First(ks: seq<int>, vs: seq<int>, key: int): int
    requires |ks| == |vs|
  {
    if ks == [] then 0 else if ks[0] == key then vs[0] else First(ks[1..], vs[1..], key)
  }

  lemma {:induction false} FirstAt(ks: seq<int>, vs: seq<int>, key: int, i: nat)
    requires |ks| == |vs| && i <= |ks| && key !in ks[..i]
    ensures First(ks, vs, key) == First(ks[i..], vs[i..], key)
  {
    if i > 0 {
      assert ks[0] == ks[..i][0];
      assert ks[1..][..i - 1] == ks[..i][1..];
      FirstAt(ks[1..], vs[1..], key, i - 1);
      assert ks[1..][i - 1..] == ks[i..] && vs[1..][i - 1..] == vs[i..];
    } else {
      assert ks[0..] == ks && vs[0..] == vs;
    }
  }

  // Later inserts never change what a key already present maps to, and give a new key its
  // own value.
  lemma {:induction false} FirstOfInsert(ks: seq<int>, vs: seq<int>, key: int, value: int, k: int)
    requires |ks| == |vs|
    ensures First(ks + [key], vs + [value], k) == if k in ks then First(ks, vs, k) else if k == key then value else 0
  {
    if ks == [] {
      assert (ks + [key])[1..] == [] && (vs + [value])[1..] == [];
    } else {
      assert (ks + [key])[1..] == ks[1..] + [key] && (vs + [value])[1..] == vs[1..] + [value];
      FirstOfInsert(ks[1..], vs[1..], key, value, k);
    }
  }

  // map_get: a linear scan in insertion order.
  method MapGet(a: Arena, m: int, key: int, ghost ks: seq<int>, ghost vs: seq<int>) returns (v: int)
    requires M.Entries(a.mem, m, ks, vs)
    ensures v == First(ks, vs, key)
    ensures key !in ks ==> v == 0
    ensures forall i | 0 <= i < |ks| && ks[i] == key && key !in ks[..i] :: v == vs[i]
  {
    hide Load;
    var r := M.ReadRec(a, m);
    var i := 0;
    while i < r.len
      invariant 0 <= i <= r.len == |ks| && key !in ks[..i]
    {
      var k := Load(a.mem, r.keys + i * 8);
      assert k == ks[i];
      if k == key {
        FirstAt(ks, vs, key, i);
        v := Load(a.mem, r.vals + i * 8);
        return;
      }
      i := i + 1;
    }
    FirstAt(ks, vs, key, i);
    v := 0;
  }

  // map_contains_key
  method MapContains(a: Arena, m: int, key: int, ghost ks: seq<int>, ghost vs: seq<int>) returns (c: int)
    requires M.Entries(a.mem, m, ks, vs)
    ensures c == if key in ks then 1 else 0
  {
    hide Load;
    var r := M.ReadRec(a, m);
    var i := 0;
    while i < r.len
      invariant 0 <= i <= r.len == |ks| && key !in ks[..i]
    {
      var k := Load(a.mem, r.keys + i * 8);
      assert k == ks[i];
      if k == key {
        return 1;
      }
      i := i + 1;
    }
    return 0;
  }

  // ----- off the chain

  // A record whose stores hold other entries reads those entries.
  lemma SharedStores(h: Bytes, m1: int, m2: int, ks: seq<int>, vs: seq<int>)
    requires M.Entries(h, m2, ks, vs) && Has(h, m1, 32) && M.MHdr(h, m1) == M.MHdr(h, m2)
    ensures M.Entries(h, m1, ks, vs)
  {
    hide M.MHdr, Words;
  }

  // Two inserts into the same handle.  When its stores were full both results keep their own
  // entries; when they had a free slot both results share that slot, so the first one now
  // reads the second one's entry.
  method Fork(a: Arena, m: int, k1: i64, v1: i64, k2: i64, v2: i64, ghost ks: seq<int>, ghost vs: seq<int>)
    returns (m1: int, m2: int)
    requires a.Valid() && M.Map(a.mem, m, ks, vs)
    modifies a
    ensures a.Valid() && m1 >= 0 && m2 >= 0
    ensures m1 == 0 || m2 == 0 ==> Exhausted(a.mem, 16 * M.MHdr(old(a.mem), m).cap + 32)
    ensures m1 > 0 && m2 > 0 ==> M.Entries(a.mem, m2, ks + [k2], vs + [v2])
    ensures m1 > 0 && m2 > 0 && |ks| >= M.MHdr(old(a.mem), m).cap ==> M.Entries(a.mem, m1, ks + [k1], vs + [v1])
    ensures m1 > 0 && m2 > 0 && |ks| < M.MHdr(old(a.mem), m).cap ==> M.Entries(a.mem, m1, ks + [k2], vs + [v2])
  {
    hide M.MHdr, M.Entries, M.Spare, M.Foot, M.Stores, Exhausted;
    ghost var h := a.mem;
    m2 := 0;
    m1 := M.MapInsert(a, m, k1, v1, ks, vs);
    if m1 == 0 {
      return;
    }
    ghost var g := a.mem;
    MapSurvives(h, g, m, ks, vs, m1);
    m2 := M.MapInsert(a, m, k2, v2, ks, vs);
    if m2 == 0 {
      return;
    }
    if |ks| < M.MHdr(h, m).cap {
      FreshRecordKept(h, g, a.mem, m, m1, m2, ks, vs, ks + [k1], vs + [v1]);
      SharedStores(a.mem, m1, m2, ks + [k2], vs + [v2]);
    } else {
      M.SpareWhenFull(h, m, ks, vs);
      M.SpareWhenFull(g, m, ks, vs);
      M.InsertKeepsOlder(g, a.mem, {}, m2, m1, ks + [k1], vs + [v1]);
    }
  }

  // Inserting through m leaves m itself insertable, with the same record.
  lemma MapSurvives(h: Bytes, g: Bytes, m: int, ks: seq<int>, vs: seq<int>, m1: int)
    requires M.Map(h, m, ks, vs) && M.Inserted(h, g, M.Spare(h, m), m1)
    ensures M.Map(g, m, ks, vs) && M.MHdr(g, m) == M.MHdr(h, m) && M.Spare(g, m) == M.Spare(h, m)
  {
    hide M.MHdr, M.Entries, M.Foot;
    M.FootOffSpare(h, m, ks, vs);
    M.FootAllocated(h, m, ks, vs);
    M.EntriesAgree(h, g, m, ks, vs, h.Keys - M.Spare(h, m));
    var r := M.MHdr(h, m);
    HasKeys(h, g, r.keys, 8 * r.cap);
    HasKeys(h, g, r.vals, 8 * r.cap);
  }

  // The first result's record is not in the slots the second insert wrote.
  lemma FreshRecordKept(h: Bytes, g: Bytes, f: Bytes, m: int, m1: int, m2: int,
                        ks: seq<int>, vs: seq<int>, ks1: seq<int>, vs1: seq<int>)
    requires M.Map(h, m, ks, vs) && Span(m1, 32) !! h.Keys && M.Map(g, m1, ks1, vs1)
    requires M.Inserted(g, f, M.Spare(g, m), m2) && M.Spare(g, m) == M.Spare(h, m)
    ensures M.MHdr(f, m1) == M.MHdr(g, m1) && Has(f, m1, 32)
  {
    hide M.MHdr, Words;
    SpareAllocated(h, m, ks, vs);
    SpanInKeys(g, m1, 32);
    M.MHdrAgree(g, f, m1, g.Keys - M.Spare(g, m));
    HasKeys(g, f, m1, 32);
  }

  lemma SpareAllocated(h: Bytes, m: int, ks: seq<int>, vs: seq<int>)
    requires M.Map(h, m, ks, vs)
    ensures M.Spare(h, m) <= h.Keys
  {
    hide M.MHdr, Words;
    var r := M.MHdr(h, m);
    SpanInKeys(h, r.keys, 8 * r.cap);
    SpanInKeys(h, r.vals, 8 * r.cap);
    if r.len < r.cap {
      SubSpan(r.keys + 8 * r.len, 8 * (r.cap - r.len), r.keys, 8 * r.cap);
      SubSpan(r.vals + 8 * r.len, 8 * (r.cap - r.len), r.vals, 8 * r.cap);
    }
  }
}
