/**
 Appending one string to another on the byte heap.
 */
module StringConcat {
  import opened Fixed
  import opened Heap
  import opened Strings
  import opened StringFamily

  // c is the first of cap, 2 * cap, 4 * cap, .. (starting at 16 for none) that suffices.
  ghost predicate FirstDoubling(cap: int, needed: int, c: int) {
    exists k: nat :: c == (if cap == 0 then 16 else cap) * Pow2(k) && needed <= c && (k > 0 ==> c < 2 * needed)
  }

  // The capacity loop: doubled from the present capacity, or from 16, until it suffices.
  method CapFor(cap: int, needed: int) returns (c: int)
    requires 0 <= cap < ADDRESS_LIMIT && cap < needed < 2 * ADDRESS_LIMIT
    ensures needed <= c < TWO63 && c != cap && (c <= 16 || c < 2 * needed) && FirstDoubling(cap, needed, c)
  {
    c := if cap == 0 then 16 else cap;
    ghost var first, k: nat := c, 0;
    assert c == first * Pow2(0);
    while c < needed
      invariant c == first * Pow2(k) && (k > 0 ==> c < 2 * needed)
      invariant 0 < c && (c == 16 || c == cap || c < 2 * needed)
      invariant c == cap ==> c < needed
      decreases needed - c
    {
      assert first * Pow2(k + 1) == 2 * (first * Pow2(k));
      c := c * 2;
      k := k + 1;
    }
  }

  // The two copies leave t + u at base.
  lemma CopiedAfter(h: Bytes, h0: Bytes, spare: set<int>, base: int, cap: int, t: seq<int>, u: seq<int>)
    requires Reserved(h, h0, spare, base, cap, t) && |t| + |u| <= cap
    ensures var h1 := Write(h0, base + |t|, u);
            && h1.Keys == h0.Keys && Agree(h, h1, h.Keys - spare) && Has(h1, base, cap + 7)
            && Read(h1, base, |t| + |u|) == t + u
    ensures Has(h0, base + |t|, |u|)
    ensures Span(base + (|t| + |u|), cap + 7 - (|t| + |u|)) !! h.Keys - spare
  {
    hide Read, Write;
    var h1 := Write(h0, base + |t|, u);
    SubSpan(base + |t|, |u|, base + |t|, cap + 7 - |t|);
    SubSpan(base + (|t| + |u|), cap + 7 - (|t| + |u|), base + |t|, cap + 7 - |t|);
    WriteAgree(h0, base + |t|, u, h.Keys - spare);
    AgreeTrans(h, h0, h1, h.Keys - spare);
    HasKeys(h0, h1, base, cap + 7);
    HasPart(h0, base, cap + 7, base + |t|, |u|);
    ApartSpans(base, |t|, base + |t|, |u|);
    WriteAgree(h0, base + |t|, u, Span(base, |t|));
    ReadAgree(h0, h1, base, |t|, Span(base, |t|));
    ReadWrite(h0, base + |t|, u);
    ReadTwo(h1, base, |t|, |u|);
  }

  lemma ReadTwo(h: Bytes, a: int, n: nat, m: nat)
    ensures Read(h, a, n + m) == Read(h, a, n) + Read(h, a + n, m)
  {
  }

  // What the source handle reads is not touched by making room in the destination.
  lemma SourceKept(h: Bytes, h0: Bytes, spare: set<int>, src: int, u: seq<int>)
    requires h.Keys <= h0.Keys && Agree(h, h0, h.Keys - spare) && Text(h, src, u) && Foot(h, src) !! spare
    ensures Text(h0, src, u) && Hdr(h0, src) == Hdr(h, src)
    ensures Has(h0, Hdr(h, src).addr, |u|) && Read(h0, Hdr(h, src).addr, |u|) == u
  {
    hide Load, Read;
    FootAllocated(h, src, u);
    TextAgree(h, h0, src, u, h.Keys - spare);
  }

  // A second record over a full or empty store.
  lemma AliasOfFull(h: Bytes, h': Bytes, s: int, t: seq<int>, rec: int)
    requires Str(h, s, t) && |t| >= Hdr(h, s).cap && Grew(h, h')
    requires Span(rec, 24) !! h.Keys && Has(h', rec, 24) && Hdr(h', rec) == Hdr(h, s)
    ensures Str(h', rec, t) && Appended(h, h', Spare(h, s), rec)
  {
    hide Load, Read;
    GrewKeeps(h, h', s, t);
    AgreeSubset(h, h', h.Keys, h.Keys - Spare(h, s));
  }

  // The present capacity when it suffices, else the first doubling that does.
  ghost predicate Fitted(cap: int, needed: int, c: int) { if needed <= cap then c == cap else FirstDoubling(cap, needed, c) }

  // Room for u after t: the present store when it suffices, else a larger one.
  method ReserveFor(a: Arena, s: int, needed: int, ghost t: seq<int>, ghost n: nat) returns (r: Room)
    requires a.Valid() && Str(a.mem, s, t) && needed == |t| + n < 2 * ADDRESS_LIMIT
    requires needed > Hdr(a.mem, s).cap || |t| < Hdr(a.mem, s).cap
    modifies a
    ensures a.Valid() && !r.Short?
    ensures r.Room? ==> Reserved(old(a.mem), a.mem, Spare(old(a.mem), s), r.base, r.cap, t)
    ensures r.Room? ==> IsI64(r.base) && IsI64(r.cap) && needed <= r.cap && Fitted(Hdr(old(a.mem), s).cap, needed, r.cap)
    ensures r.Full? ==> Exhausted(a.mem, 2 * needed + 24)
  {
    hide Load, Read, Write, Reserved, Exhausted, FirstDoubling;
    ghost var h := a.mem;
    HdrBounds(h, s, t);
    var base, len, cap := Load(a.mem, s), Load(a.mem, s + 8), Load(a.mem, s + 16);
    if needed <= cap {
      ReserveInPlace(h, s, t);
      return Room(base, cap);
    }
    var c := CapFor(cap, needed);
    var p := a.Alloc(c + 7);
    if p == 0 {
      MoreExhausted(a.mem, c + 7, 2 * needed + 24);
      return Full;
    }
    ReserveGrown(h, a.mem, s, t, p, c);
    a.Copy(p, base, len);
    return Room(p, c);
  }

  // string_push_str: the new handle reads both texts, and nothing any other handle reads has
  // changed; the source may be any handle out of reach of an append to dst, dst included.
  method PushStr(a: Arena, dst: int, src: int, ghost t: seq<int>, ghost u: seq<int>) returns (r: Pushed)
    requires a.Valid() && Str(a.mem, dst, t) && Text(a.mem, src, u) && Foot(a.mem, src) !! Spare(a.mem, dst)
    modifies a
    ensures a.Valid() && !r.OutOfBounds?
    ensures r.Pushed? ==> Str(a.mem, r.handle, t + u) && Text(a.mem, src, u)
    ensures r.Pushed? ==> Appended(old(a.mem), a.mem, Spare(old(a.mem), dst), r.handle)
    ensures r.Pushed? ==> Fitted(Hdr(old(a.mem), dst).cap, |t| + |u|, Hdr(a.mem, r.handle).cap)
    ensures r.NoMemory? ==> Exhausted(a.mem, 2 * (|t| + |u|) + 24)
  {
    hide FirstDoubling, Load, Read, Write, Str, Spare, Text, Exhausted, Foot, Reserved, Appended, Hdr;
    ghost var h, spare := a.mem, Spare(a.mem, dst);
    LengthOf(h, dst, t);
    TextBounds(h, src, u);
    HdrFields(h, dst);
    HdrFields(h, src);
    var addr, len, cap := Load(a.mem, dst), Load(a.mem, dst + 8), Load(a.mem, dst + 16);
    var from: int, n: int := Load(a.mem, src), Load(a.mem, src + 8);
    var needed := len + n;
    var rec := 0;
    if needed <= cap && len >= cap {
      rec := MakeRec(a, addr, needed, cap);
      if rec > 0 {
        AliasOfFull(h, a.mem, dst, t, rec);
        assert t + u == t;
      }
    } else {
      var room := ReserveFor(a, dst, needed, t, |u|);
      if room.Full? {
        return NoMemory;
      }
      ghost var h0 := a.mem;
      ReservedGrows(h, h0, spare, room.base, room.cap, t);
      SourceKept(h, h0, spare, src, u);
      CopiedAfter(h, h0, spare, room.base, room.cap, t, u);
      a.Copy(room.base + len, from, n);
      ghost var h1 := a.mem;
      rec := MakeRec(a, room.base, needed, room.cap);
      if rec > 0 {
        FinishPush(h, h1, a.mem, spare, rec, Rec(room.base, needed, room.cap), t + u);
      }
    }
    if rec == 0 {
      MoreExhausted(a.mem, 24, 2 * (|t| + |u|) + 24);
      return NoMemory;
    }
    AppendKeepsOlder(h, a.mem, spare, rec, src, u);
    r := Pushed(rec);
  }

  lemma ReservedGrows(h: Bytes, h0: Bytes, spare: set<int>, base: int, cap: int, t: seq<int>)
    requires Reserved(h, h0, spare, base, cap, t)
    ensures h.Keys <= h0.Keys && Agree(h, h0, h.Keys - spare)
  {
  }

  // Pushing a string onto the newest handle of a family.
  method PushStrNewest(a: Arena, s: int, src: int, ghost vs: seq<View>, ghost t: seq<int>, ghost u: seq<int>) returns (r: Pushed)
    requires a.Valid() && Family(a.mem, vs, s, t) && Member(View(src, u), vs, s, t)
    modifies a
    ensures a.Valid() && !r.OutOfBounds?
    ensures r.Pushed? ==> Family(a.mem, vs + [View(s, t)], r.handle, t + u)
    ensures r.NoMemory? ==> Exhausted(a.mem, 2 * (|t| + |u|) + 24)
  {
    hide Str, Appended, Exhausted, Hdr, Text, Foot, Spare;
    ghost var h := a.mem;
    MemberHolds(h, View(src, u), vs, s, t);
    r := PushStr(a, s, src, t, u);
    if r.Pushed? {
      FamilyPush(h, a.mem, vs, s, t, r.handle, t + u);
    }
  }
}
