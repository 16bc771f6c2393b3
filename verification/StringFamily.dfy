/**
 Families of string handles that share backing stores, and the trip from a byte vector to a
 string and back.
 */
module StringFamily {
  import opened Heap
  import opened Strings
  import opened Vectors

  // A handle and the bytes it was made to read.
  datatype View = View(handle: int, text: seq<int>)

  ghost predicate Holds(h: Bytes, v: View, s: int) {
    Text(h, v.handle, v.text) && Foot(h, v.handle) !! Spare(h, s)
  }

  // s is the newest handle; every older handle and slice still reads its own bytes, out of
  // reach of an append to s.
  ghost predicate Family(h: Bytes, vs: seq<View>, s: int, t: seq<int>) {
    Str(h, s, t) && forall i | 0 <= i < |vs| :: Holds(h, vs[i], s)
  }

  // Appending to the newest handle turns it into one more old handle.
  lemma FamilyPush(h: Bytes, h': Bytes, vs: seq<View>, s: int, t: seq<int>, s': int, t': seq<int>)
    requires Family(h, vs, s, t) && Str(h', s', t') && Appended(h, h', Spare(h, s), s')
    ensures Family(h', vs + [View(s, t)], s', t')
  {
    hide Text, Foot, Spare, Appended;
    var all := vs + [View(s, t)];
    forall i | 0 <= i < |all| ensures Holds(h', all[i], s') {
      if i < |vs| {
        assert Holds(h, vs[i], s);
      }
      AppendKeepsOlder(h, h', Spare(h, s), s', all[i].handle, all[i].text);
    }
  }

  // string_push_byte on the newest member of a family.
  method PushNewest(a: Arena, s: int, b: int, ghost vs: seq<View>, ghost t: seq<int>) returns (r: Pushed)
    requires a.Valid() && Family(a.mem, vs, s, t)
    modifies a
    ensures a.Valid()
    ensures r.Pushed? ==> Family(a.mem, vs + [View(s, t)], r.handle, t + [b % 256])
    ensures r.OutOfBounds? ==> Hdr(old(a.mem), s).cap == 0 && |t| >= 16
    ensures r.NoMemory? ==> Exhausted(a.mem, 2 * Hdr(old(a.mem), s).cap + 24)
  {
    hide Str, Appended, Holds, Exhausted, Hdr;
    ghost var h := a.mem;
    r := PushByte(a, s, b, t);
    if r.Pushed? {
      FamilyPush(h, a.mem, vs, s, t, r.handle, t + [b % 256]);
    }
  }

  // ----- slices

  // Heap growth that leaves everything allocated alone.
  ghost predicate Grew(h: Bytes, h': Bytes) { h.Keys <= h'.Keys && Agree(h, h', h.Keys) }

  lemma GrewKeeps(h: Bytes, h': Bytes, v: int, t: seq<int>)
    requires Grew(h, h') && Text(h, v, t)
    ensures Text(h', v, t) && Hdr(h', v) == Hdr(h, v)
  {
    hide Hdr, Text;
    FootAllocated(h, v, t);
    TextAgree(h, h', v, t, h.Keys);
  }

  lemma GrewKeepsStr(h: Bytes, h': Bytes, s: int, t: seq<int>)
    requires Grew(h, h') && Str(h, s, t)
    ensures Str(h', s, t) && Hdr(h', s) == Hdr(h, s)
  {
    hide Load, Read;
    GrewKeeps(h, h', s, t);
    var r := Hdr(h, s);
    if |t| < r.cap {
      HasKeys(h, h', r.addr + |t|, r.cap + 7 - |t|);
    }
  }

  // v is in the family: an older handle or slice, or the newest.
  ghost predicate Member(v: View, vs: seq<View>, s: int, t: seq<int>) { v in vs || v == View(s, t) }

  lemma MemberHolds(h: Bytes, v: View, vs: seq<View>, s: int, t: seq<int>)
    requires Family(h, vs, s, t) && Member(v, vs, s, t)
    ensures Text(h, v.handle, v.text) && Foot(h, v.handle) !! Spare(h, s)
  {
    hide Text, Foot, Spare;
    if v in vs {
      var i :| 0 <= i < |vs| && vs[i] == v;
      assert Holds(h, vs[i], s);
    }
  }

  lemma SpareAllocated(h: Bytes, s: int, t: seq<int>)
    requires Str(h, s, t)
    ensures Spare(h, s) <= h.Keys
  {
    hide Load, Read;
    var r := Hdr(h, s);
    if |t| < r.cap {
      SpanInKeys(h, r.addr + |t|, r.cap + 7 - |t|);
    }
  }

  // A new record over part of what a member reads.
  lemma SliceReads(h: Bytes, h': Bytes, s: int, t: seq<int>, rec: int, lo: nat, hi: nat, spare: set<int>)
    requires Grew(h, h') && Text(h, s, t) && lo <= hi <= |t| && Foot(h, s) !! spare && spare <= h.Keys
    requires Has(h', rec, 24) && Span(rec, 24) !! h.Keys && Hdr(h', rec) == Rec(Hdr(h, s).addr + lo, hi - lo, 0)
    ensures Str(h', rec, t[lo..hi]) && Foot(h', rec) !! spare
  {
    hide Load, Read;
    var r := Hdr(h, s);
    GrewKeeps(h, h', s, t);
    ReadPart(h', r.addr, |t|, lo, hi - lo);
    HasPart(h', r.addr, |t|, r.addr + lo, hi - lo);
    SubSpan(r.addr + lo, hi - lo, r.addr, |t|);
  }

  // string_slice of any member: a zero-copy view that joins the family; it can itself be
  // appended to, having no spare capacity in the parent's store.
  method Slice(a: Arena, s: int, start: int, end: int, ghost t: seq<int>, ghost vs: seq<View>, ghost newest: View) returns (r: int)
    requires a.Valid() && Family(a.mem, vs, newest.handle, newest.text) && Member(View(s, t), vs, newest.handle, newest.text)
    modifies a
    ensures a.Valid() && r >= 0 && (r == 0 ==> a.mem == old(a.mem) && Exhausted(a.mem, 24))
    ensures var lo, hi := if start > 0 then start else 0, if end < |t| then end else |t|;
            var u := if lo < hi then t[lo..hi] else [];
            r > 0 ==> Str(a.mem, r, u) && Hdr(a.mem, r).cap == 0 && Family(a.mem, vs + [View(r, u)], newest.handle, newest.text)
  {
    hide Load, Read, Exhausted, Family, Str;
    ghost var h := a.mem;
    MemberHolds(h, View(s, t), vs, newest.handle, newest.text);
    TextBounds(h, s, t);
    var len: int := Load(a.mem, s + 8);
    var lo := if start < 0 then 0 else start;
    var hi := if end > len then len else end;
    if hi <= lo || lo >= len {
      r := MakeRec(a, 0, 0, 0);
      if r > 0 {
        EmptySlice(h, a.mem, vs, newest, r);
      }
    } else {
      var base: int := Load(a.mem, s);
      r := MakeRec(a, base + lo, hi - lo, 0);
      if r > 0 {
        SliceJoins(h, a.mem, vs, newest, s, t, r, lo, hi);
      }
    }
  }

  // The length and the address of a handle leave room for 64-bit arithmetic.
  lemma TextBounds(h: Bytes, s: int, t: seq<int>)
    requires Sane(h) && Text(h, s, t)
    ensures Load(h, s) == Hdr(h, s).addr && Load(h, s + 8) == |t| < ADDRESS_LIMIT
    ensures t != [] ==> 0 < Hdr(h, s).addr && Hdr(h, s).addr + |t| <= ADDRESS_LIMIT
  {
    hide Load, Read;
    var r := Hdr(h, s);
    if t != [] {
      assert r.addr in h && r.addr + |t| - 1 in h;
    }
  }

  lemma SliceJoins(h: Bytes, h': Bytes, vs: seq<View>, newest: View, s: int, t: seq<int>, rec: int, lo: nat, hi: nat)
    requires Family(h, vs, newest.handle, newest.text) && Grew(h, h')
    requires Text(h, s, t) && lo <= hi <= |t| && Foot(h, s) !! Spare(h, newest.handle)
    requires Has(h', rec, 24) && Span(rec, 24) !! h.Keys && Hdr(h', rec) == Rec(Hdr(h, s).addr + lo, hi - lo, 0)
    ensures Str(h', rec, t[lo..hi]) && Family(h', vs + [View(rec, t[lo..hi])], newest.handle, newest.text)
  {
    hide Hdr, Text, Foot, SpareOf, Holds;
    GrewKeepsStr(h, h', newest.handle, newest.text);
    SpareAllocated(h, newest.handle, newest.text);
    SliceReads(h, h', s, t, rec, lo, hi, Spare(h, newest.handle));
    NewMember(h, h', vs, newest, View(rec, t[lo..hi]));
  }

  lemma NewMember(h: Bytes, h': Bytes, vs: seq<View>, newest: View, v: View)
    requires Family(h, vs, newest.handle, newest.text) && Grew(h, h') && Hdr(h', newest.handle) == Hdr(h, newest.handle)
    requires Str(h', v.handle, v.text) && Foot(h', v.handle) !! Spare(h, newest.handle)
    ensures Family(h', vs + [v], newest.handle, newest.text)
  {
    hide Hdr, Text, Foot, SpareOf, Family;
    FamilyGrew(h, h', vs, newest.handle, newest.text, v);
  }

  lemma EmptySlice(h: Bytes, h': Bytes, vs: seq<View>, newest: View, rec: int)
    requires Family(h, vs, newest.handle, newest.text) && Grew(h, h')
    requires Has(h', rec, 24) && Span(rec, 24) !! h.Keys && Hdr(h', rec) == Rec(0, 0, 0)
    ensures Str(h', rec, []) && Family(h', vs + [View(rec, [])], newest.handle, newest.text)
  {
    hide Hdr, Holds;
    GrewKeepsStr(h, h', newest.handle, newest.text);
    SpareAllocated(h, newest.handle, newest.text);
    EmptyString(h', rec);
    assert Span(0, 0) == {};
    NewMember(h, h', vs, newest, View(rec, []));
  }

  lemma FamilyGrew(h: Bytes, h': Bytes, vs: seq<View>, s: int, t: seq<int>, v: View)
    requires Family(h, vs, s, t) && Grew(h, h') && Holds(h', v, s)
    ensures Family(h', vs + [v], s, t)
  {
    hide Hdr, Text, Str, Grew;
    GrewKeepsStr(h, h', s, t);
    forall i | 0 <= i < |vs| ensures Holds(h', vs[i], s) {
      assert Holds(h, vs[i], s);
      GrewKeeps(h, h', vs[i].handle, vs[i].text);
    }
  }

  // string_get_byte
  method GetByte(a: Arena, s: int, i: nat, ghost t: seq<int>) returns (b: int)
    requires a.Valid() && Text(a.mem, s, t) && i < |t|
    ensures b == t[i] && 0 <= b < 256
  {
    hide Load, Read;
    var base: int := Load(a.mem, s);
    assert base + i in a.mem;
    b := a.mem[base + i];
    ReadAt(a.mem, base, |t|, i);
  }

  lemma ReadAt(h: Bytes, a: int, n: nat, i: nat)
    requires i < n && a + i in h
    ensures Read(h, a, n)[i] == h[a + i]
  {
  }

  // ----- byte vectors

  // The low byte of each element.
  function Low(es: seq<int>): (r: seq<int>)
    ensures |r| == |es| && forall i | 0 <= i < |es| :: r[i] == es[i] % 256
  {
    seq(|es|, i requires 0 <= i < |es| => es[i] % 256)
  }

  lemma LowOfBytes(es: seq<int>)
    requires forall i | 0 <= i < |es| :: 0 <= es[i] < 256
    ensures Low(es) == es
  {
  }

  lemma VecSurvivesPush(h: Bytes, h': Bytes, s: int, s': int, v: int, es: seq<int>)
    requires Appended(h, h', Spare(h, s), s') && Vec(h, v, es) && VecFoot(h, v) !! Spare(h, s)
    ensures Vec(h', v, es) && VecFoot(h', v) == VecFoot(h, v) && VecFoot(h', v) !! Spare(h', s')
  {
    hide Vec, VecFoot, Spare;
    VecAllocated(h, v, es);
    VecAgree(h, h', v, es, h.Keys - Spare(h, s));
  }

  // string_from_utf8_bytes; 0 when malloc fails.
  method FromBytes(a: Arena, v: int, ghost es: seq<int>) returns (s: int)
    requires a.Valid() && Vec(a.mem, v, es)
    modifies a
    ensures a.Valid() && s >= 0 && (s == 0 ==> Exhausted(a.mem, 4 * |es| + 64))
    ensures s > 0 ==> Str(a.mem, s, Low(es)) && Vec(a.mem, v, es)
  {
    hide Load, Str, Appended, Words, Exhausted, Vec;
    VecAllocated(a.mem, v, es);
    ghost var g := a.mem;
    s := MakeRec(a, 0, 0, 0);
    if s == 0 {
      MoreExhausted(a.mem, 24, 4 * |es| + 64);
      return;
    }
    EmptyString(a.mem, s);
    VecAgree(g, a.mem, v, es, g.Keys);
    var n := VecLen(a, v, es);
    var i := 0;
    while i < n
      invariant 0 <= i <= n == |es| && s > 0 && a.Valid()
      invariant Str(a.mem, s, Low(es)[..i]) && Vec(a.mem, v, es) && VecFoot(a.mem, v) !! Spare(a.mem, s)
      invariant Hdr(a.mem, s).cap <= 2 * i + 16 && (i > 0 ==> Hdr(a.mem, s).cap > 0)
    {
      ghost var h := a.mem;
      var b := VecGet(a, v, i, es);
      NextCapBound(h, s, Low(es)[..i]);
      var r := PushByte(a, s, b, Low(es)[..i]);
      if r.NoMemory? {
        MoreExhausted(a.mem, 2 * Hdr(h, s).cap + 24, 4 * |es| + 64);
        s := 0;
        return;
      }
      VecSurvivesPush(h, a.mem, s, r.handle, v, es);
      PushedPositive(a.mem, r.handle, Low(es)[..i] + [b % 256]);
      assert Low(es)[..i] + [b % 256] == Low(es)[..i + 1];
      s := r.handle;
      i := i + 1;
    }
    assert Low(es)[..n] == Low(es);
  }

  lemma PushedPositive(h: Bytes, s: int, t: seq<int>)
    requires Sane(h) && Str(h, s, t)
    ensures s > 0
  {
    assert s in h;
  }

  lemma EmptyString(h: Bytes, s: int)
    requires Has(h, s, 24) && Hdr(h, s) == Rec(0, 0, 0)
    ensures Str(h, s, []) && Spare(h, s) == {}
  {
    hide Load;
  }

  // Lengths and capacities stay in step: a full store is doubled, a spare one kept.
  lemma NextCapBound(h: Bytes, s: int, t: seq<int>)
    requires Str(h, s, t)
    ensures var c := NextCap(Hdr(h, s));
            && c > 0 && (Hdr(h, s).cap <= 2 * |t| + 16 ==> c <= 2 * (|t| + 1) + 16)
  {
    hide Load, Read;
  }

  method VecLen(a: Arena, v: int, ghost es: seq<int>) returns (n: int)
    requires Vec(a.mem, v, es)
    ensures n == |es|
  {
    n := Load(a.mem, v + 8);
  }

  lemma TextSurvivesPush(h: Bytes, h': Bytes, v: int, s: int, t: seq<int>)
    requires VecChanged(h, h', v) && Text(h, s, t) && Foot(h, s) !! VecFoot(h, v)
    ensures Text(h', s, t) && Foot(h', s) == Foot(h, s) && Foot(h', s) !! VecFoot(h', v)
  {
    hide Text, VecFoot, Hdr;
    FootAllocated(h, s, t);
    TextAgree(h, h', s, t, h.Keys - VecFoot(h, v));
  }

  // string_to_utf8_bytes; 0 when malloc fails.
  method ToBytes(a: Arena, s: int, ghost t: seq<int>) returns (v: int)
    requires a.Valid() && Text(a.mem, s, t)
    modifies a
    ensures a.Valid() && v >= 0 && (v == 0 ==> Exhausted(a.mem, 32 * |t| + 96))
    ensures v > 0 ==> Vec(a.mem, v, t) && Text(a.mem, s, t)
  {
    hide Load, Read, Words, Exhausted, Vec, Text, VecChanged;
    ghost var g := a.mem;
    FootAllocated(g, s, t);
    v := VecNew(a);
    if v == 0 {
      MoreExhausted(a.mem, 24, 32 * |t| + 96);
      return;
    }
    TextAgree(g, a.mem, s, t, g.Keys);
    NewVecCap(a.mem, v);
    var n := TextLen(a, s, t);
    var i := 0;
    while i < n
      invariant 0 <= i <= n == |t| && a.Valid() && v > 0
      invariant Vec(a.mem, v, t[..i]) && Text(a.mem, s, t) && Foot(a.mem, s) !! VecFoot(a.mem, v)
      invariant Hdr(a.mem, v).cap <= 2 * i + 4
    {
      ghost var h := a.mem;
      var b := GetByte(a, s, i, t);
      NextVecCapBound(h, v, t[..i]);
      var ok := VecPush(a, v, b, t[..i]);
      if !ok {
        MoreExhausted(a.mem, 16 * Hdr(h, v).cap + 32, 32 * |t| + 96);
        v := 0;
        return;
      }
      TextSurvivesPush(h, a.mem, v, s, t);
      assert t[..i] + [b] == t[..i + 1];
      i := i + 1;
    }
    assert t[..n] == t;
  }

  method TextLen(a: Arena, s: int, ghost t: seq<int>) returns (n: int)
    requires Text(a.mem, s, t)
    ensures n == |t|
  {
    n := Load(a.mem, s + 8);
  }

  lemma NewVecCap(h: Bytes, v: int)
    requires Vec(h, v, []) && Hdr(h, v).cap == 0
    ensures Hdr(h, v).cap <= 4
  {
  }

  lemma NextVecCapBound(h: Bytes, v: int, es: seq<int>)
    requires Vec(h, v, es)
    ensures Hdr(h, v).cap <= 2 * |es| + 4 ==> NextVecCap(Hdr(h, v)) <= 2 * (|es| + 1) + 4
  {
    hide Load, Words;
  }

  // Bytes to string to bytes is the identity on byte values, through every overlapping store
  // and every regrowth; 0 when malloc fails.
  method BytesRoundTrip(a: Arena, v: int, ghost es: seq<int>) returns (w: int)
    requires a.Valid() && Vec(a.mem, v, es) && forall i | 0 <= i < |es| :: 0 <= es[i] < 256
    modifies a
    ensures a.Valid() && w >= 0 && (w == 0 ==> Exhausted(a.mem, 32 * |es| + 96))
    ensures w > 0 ==> Vec(a.mem, w, es)
  {
    hide Vec, Str, Text, Exhausted;
    LowOfBytes(es);
    var s := FromBytes(a, v, es);
    if s == 0 {
      MoreExhausted(a.mem, 4 * |es| + 64, 32 * |es| + 96);
      return 0;
    }
    StrText(a.mem, s, es);
    w := ToBytes(a, s, es);
  }

  lemma StrText(h: Bytes, s: int, t: seq<int>)
    requires Str(h, s, t)
    ensures Text(h, s, t)
  {
  }
}
