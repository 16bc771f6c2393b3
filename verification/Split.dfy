/**
 Splitting a string on a separator: what the segments are, and the scan that finds them on
 the byte heap.
 */
module Split {
  import opened Heap
  import opened Strings
  import opened Vectors
  import opened StringFamily

  // sep occurs in s at i.
  predicate Matches(s: seq<int>, sep: seq<int>, i: int) {
    0 <= i && i + |sep| <= |s| && s[i..i + |sep|] == sep
  }

  ghost predicate Occurs(s: seq<int>, sep: seq<int>) { exists i :: Matches(s, sep, i) }

  // Every segment followed by the separator.
  function Lead(segs: seq<seq<int>>, sep: seq<int>): seq<int> {
    if segs == [] then [] else segs[0] + sep + Lead(segs[1..], sep)
  }

  // The segments with the separator between them.
  function Join(segs: seq<seq<int>>, sep: seq<int>): seq<int>
    requires segs != []
  {
    if |segs| == 1 then segs[0] else segs[0] + sep + Join(segs[1..], sep)
  }

  // A segment runs up to the first occurrence of the separator.
  ghost predicate UpToFirst(seg: seq<int>, sep: seq<int>) {
    forall i | 0 <= i < |seg| :: !Matches(seg + sep, sep, i)
  }

  // What a split on a non-empty separator is.
  ghost predicate IsSplit(s: seq<int>, sep: seq<int>, segs: seq<seq<int>>) {
    && segs != [] && Join(segs, sep) == s
    && (forall k | 0 <= k < |segs| - 1 :: UpToFirst(segs[k], sep))
    && !Occurs(segs[|segs| - 1], sep)
  }

  lemma {:induction false} JoinSnoc(segs: seq<seq<int>>, last: seq<int>, sep: seq<int>)
    ensures Join(segs + [last], sep) == Lead(segs, sep) + last
  {
    if segs == [] {
      assert segs + [last] == [last];
    } else {
      assert (segs + [last])[1..] == segs[1..] + [last];
      JoinSnoc(segs[1..], last, sep);
      assert segs[0] + sep + (Lead(segs[1..], sep) + last) == segs[0] + sep + Lead(segs[1..], sep) + last;
    }
  }

  lemma {:induction false} LeadSnoc(segs: seq<seq<int>>, seg: seq<int>, sep: seq<int>)
    ensures Lead(segs + [seg], sep) == Lead(segs, sep) + seg + sep
  {
    if segs == [] {
      assert segs + [seg] == [seg] && [seg][1..] == [];
      assert seg + sep + [] == [] + seg + sep;
    } else {
      assert (segs + [seg])[1..] == segs[1..] + [seg];
      LeadSnoc(segs[1..], seg, sep);
      var a, b := segs[0] + sep, Lead(segs[1..], sep);
      assert a + (b + seg + sep) == a + b + seg + sep;
    }
  }

  // No segment of a split contains the separator.
  lemma SegmentsAreFree(s: seq<int>, sep: seq<int>, segs: seq<seq<int>>, k: nat)
    requires sep != [] && IsSplit(s, sep, segs) && k < |segs|
    ensures !Occurs(segs[k], sep)
  {
    if k < |segs| - 1 && Occurs(segs[k], sep) {
      var i :| Matches(segs[k], sep, i);
      assert (segs[k] + sep)[i..i + |sep|] == segs[k][i..i + |sep|];
      assert UpToFirst(segs[k], sep) && Matches(segs[k] + sep, sep, i);
    }
  }

  // ----- a split is unique

  lemma MatchInPrefix(p: seq<int>, q: seq<int>, sep: seq<int>, i: int)
    requires 0 <= i && i + |sep| <= |p|
    ensures Matches(p + q, sep, i) == Matches(p, sep, i)
  {
    assert (p + q)[i..i + |sep|] == p[i..i + |sep|];
  }

  lemma FirstSegment(s: seq<int>, sep: seq<int>, segs: seq<seq<int>>)
    requires sep != [] && IsSplit(s, sep, segs) && |segs| > 1
    ensures Matches(s, sep, |segs[0]|) && forall i | 0 <= i < |segs[0]| :: !Matches(s, sep, i)
    ensures s == segs[0] + sep + Join(segs[1..], sep) && IsSplit(Join(segs[1..], sep), sep, segs[1..])
  {
    var rest := Join(segs[1..], sep);
    var p := segs[0] + sep;
    assert s == p + rest;
    assert p[|segs[0]|..|segs[0]| + |sep|] == sep;
    MatchInPrefix(p, rest, sep, |segs[0]|);
    assert UpToFirst(segs[0], sep);
    forall i | 0 <= i < |segs[0]| ensures !Matches(s, sep, i) {
      MatchInPrefix(p, rest, sep, i);
    }
    forall k | 0 <= k < |segs[1..]| - 1 ensures UpToFirst(segs[1..][k], sep) {
      assert UpToFirst(segs[k + 1], sep);
    }
  }

  // Being a split determines the segments, so the scan's result is the only one.
  lemma {:induction false} SplitIsUnique(s: seq<int>, sep: seq<int>, a: seq<seq<int>>, b: seq<seq<int>>)
    requires sep != [] && IsSplit(s, sep, a) && IsSplit(s, sep, b)
    ensures a == b
    decreases |a|
  {
    if |a| == 1 && |b| == 1 {
    } else if |a| == 1 {
      FirstSegment(s, sep, b);
    } else if |b| == 1 {
      FirstSegment(s, sep, a);
    } else {
      FirstSegment(s, sep, a);
      FirstSegment(s, sep, b);
      var n := |a[0]|;
      assert |b[0]| == n;
      assert a[0] == s[..n] && b[0] == s[..n];
      assert Join(a[1..], sep) == s[n + |sep|..] && Join(b[1..], sep) == s[n + |sep|..];
      SplitIsUnique(s[n + |sep|..], sep, a[1..], b[1..]);
      assert a == [a[0]] + a[1..] && b == [b[0]] + b[1..];
    }
  }

  // ----- the scan

  // segs have been cut off before start, and the separator occurs nowhere in [start, i).
  ghost predicate Scanned(s: seq<int>, sep: seq<int>, segs: seq<seq<int>>, start: nat, i: nat) {
    && start <= i && start <= |s|
    && s == Lead(segs, sep) + s[start..] && |Lead(segs, sep)| == start
    && (forall k | 0 <= k < |segs| :: UpToFirst(segs[k], sep))
    && (forall p | start <= p < i :: !Matches(s, sep, p))
  }

  lemma ScanCut(s: seq<int>, sep: seq<int>, segs: seq<seq<int>>, start: nat, i: nat)
    requires sep != [] && Scanned(s, sep, segs, start, i) && Matches(s, sep, i)
    ensures Scanned(s, sep, segs + [s[start..i]], i + |sep|, i + |sep|)
  {
    var seg := s[start..i];
    LeadSnoc(segs, seg, sep);
    assert s[start..] == seg + sep + s[i + |sep|..];
    var l := Lead(segs, sep);
    assert l + (seg + sep + s[i + |sep|..]) == l + seg + sep + s[i + |sep|..];
    CutIsFirst(s, sep, start, i);
  }

  lemma CutIsFirst(s: seq<int>, sep: seq<int>, start: nat, i: nat)
    requires start <= i && Matches(s, sep, i) && forall p | start <= p < i :: !Matches(s, sep, p)
    ensures UpToFirst(s[start..i], sep)
  {
    var w := s[start..i] + sep;
    assert w == s[start..i + |sep|];
    forall p | 0 <= p < i - start ensures !Matches(w, sep, p) {
      SliceOfSlice(s, start, i + |sep|, p, |sep|);
      assert !Matches(s, sep, start + p);
    }
  }

  lemma SliceOfSlice(s: seq<int>, lo: nat, hi: nat, p: nat, m: nat)
    requires lo + p + m <= hi <= |s|
    ensures s[lo..hi][p..p + m] == s[lo + p..lo + p + m]
  {
    var w := s[lo..hi];
    var x, y := w[p..p + m], s[lo + p..lo + p + m];
    forall k | 0 <= k < m ensures x[k] == y[k] {
      assert w[p + k] == s[lo + p + k];
    }
  }

  lemma ScanEnds(s: seq<int>, sep: seq<int>, segs: seq<seq<int>>, start: nat, i: nat)
    requires sep != [] && Scanned(s, sep, segs, start, i) && i + |sep| > |s|
    ensures IsSplit(s, sep, segs + [s[start..]])
  {
    var last := s[start..];
    JoinSnoc(segs, last, sep);
    assert !Occurs(last, sep) by {
      if Occurs(last, sep) {
        var p :| Matches(last, sep, p);
        assert s[start + p..start + p + |sep|] == last[p..p + |sep|];
        assert Matches(s, sep, start + p);
      }
    }
  }

  // ----- on the heap

  // Handles that keep reading their bytes whatever the vector at v does.
  ghost predicate Views(h: Bytes, vs: seq<View>, v: int) {
    forall i | 0 <= i < |vs| :: Text(h, vs[i].handle, vs[i].text) && Foot(h, vs[i].handle) !! VecFoot(h, v)
  }

  // string_from_range: a fresh string with the n bytes at src; 0 when malloc fails.
  method FromRange(a: Arena, src: int, n: nat) returns (rec: int)
    requires a.Valid() && Has(a.mem, src, n)
    modifies a
    ensures a.Valid() && rec >= 0 && (rec == 0 ==> Exhausted(a.mem, n + 24))
    ensures rec > 0 ==> Str(a.mem, rec, Read(old(a.mem), src, n)) && Grew(old(a.mem), a.mem)
    ensures rec > 0 ==> Foot(a.mem, rec) !! old(a.mem).Keys && rec < ADDRESS_LIMIT && Hdr(a.mem, rec).cap == n
  {
    hide Load, Read, Write, Store, Exhausted, Hdr;
    ghost var h := a.mem;
    rec := a.Alloc(24);
    if rec == 0 {
      MoreExhausted(a.mem, 24, n + 24);
      return;
    }
    ghost var h0 := a.mem;
    SpanHas(h0, rec, 24);
    if n == 0 {
      WriteRec(a, rec, 0, 0, 0);
      EmptyRange(h, h0, a.mem, src, rec);
      return;
    }
    var buf := a.Alloc(n + 7);
    if buf == 0 {
      MoreExhausted(a.mem, n + 7, n + 24);
      return 0;
    }
    ghost var h1 := a.mem;
    RangeBounds(h, h0, h1, src, n, buf);
    a.Copy(buf, src, n);
    ghost var h2 := a.mem;
    RangeCopied(h, h0, h1, src, n, rec, buf);
    WriteRec(a, rec, buf, n, n);
    RangeString(h, h2, a.mem, Read(h, src, n), rec, buf);
  }

  lemma EmptyRange(h: Bytes, h0: Bytes, h': Bytes, src: int, rec: int)
    requires Span(rec, 24) !! h.Keys && h0.Keys == h.Keys + Span(rec, 24) && Agree(h, h0, h.Keys)
    requires h'.Keys == h0.Keys && Agree(h0, h', h0.Keys - Span(rec, 24)) && Has(h', rec, 24) && Hdr(h', rec) == Rec(0, 0, 0)
    ensures Str(h', rec, Read(h, src, 0)) && Grew(h, h') && Foot(h', rec) !! h.Keys
  {
    hide Hdr, Load;
    AgreeSubset(h0, h', h0.Keys - Span(rec, 24), h.Keys);
    AgreeTrans(h, h0, h', h.Keys);
    assert Read(h, src, 0) == [];
    assert Span(0, 0) == {};
  }

  lemma RangeBounds(h: Bytes, h0: Bytes, h1: Bytes, src: int, n: nat, buf: int)
    requires Has(h, src, n) && h.Keys <= h0.Keys && h1.Keys == h0.Keys + Span(buf, n + 7)
    ensures Has(h1, src, n) && Has(h1, buf, n) && Has(h1, buf, n + 7)
  {
    SpanHas(h1, buf, n + 7);
    HasKeys(h, h1, src, n);
    HasPart(h1, buf, n + 7, buf, n);
  }

  lemma RangeCopied(h: Bytes, h0: Bytes, h1: Bytes, src: int, n: nat, rec: int, buf: int)
    requires Has(h, src, n) && Has(h1, buf, n + 7)
    requires Span(rec, 24) !! h.Keys && h0.Keys == h.Keys + Span(rec, 24) && Agree(h, h0, h.Keys)
    requires Span(buf, n + 7) !! h0.Keys && h1.Keys == h0.Keys + Span(buf, n + 7) && Agree(h0, h1, h0.Keys)
    ensures var h2 := Write(h1, buf, Read(h1, src, n));
            && h2.Keys == h1.Keys && Agree(h, h2, h.Keys) && Read(h2, buf, n) == Read(h, src, n)
            && Has(h2, rec, 24) && Has(h2, buf, n + 7) && Span(buf, n + 7) !! Span(rec, 24) && Span(buf, n + 7) !! h.Keys
  {
    hide Read, Write;
    SpanInKeys(h, src, n);
    AgreeSubset(h0, h1, h0.Keys, h.Keys);
    AgreeTrans(h, h0, h1, h.Keys);
    ReadAgree(h, h1, src, n, h.Keys);
    var t := Read(h, src, n);
    HasPart(h1, buf, n + 7, buf, n);
    ReadWrite(h1, buf, t);
    SubSpan(buf, n, buf, n + 7);
    WriteAgree(h1, buf, t, h.Keys);
    AgreeTrans(h, h1, Write(h1, buf, t), h.Keys);
    SpanHas(Write(h1, buf, t), rec, 24);
    HasKeys(h1, Write(h1, buf, t), buf, n + 7);
  }

  lemma RangeString(h: Bytes, h2: Bytes, h3: Bytes, t: seq<int>, rec: int, buf: int)
    requires h.Keys <= h2.Keys && Agree(h, h2, h.Keys) && Span(rec, 24) !! h.Keys
    requires Has(h2, buf, |t| + 7) && Read(h2, buf, |t|) == t && Span(buf, |t| + 7) !! Span(rec, 24) && Span(buf, |t| + 7) !! h.Keys
    requires h3.Keys == h2.Keys && Agree(h2, h3, h2.Keys - Span(rec, 24)) && Has(h3, rec, 24) && Hdr(h3, rec) == Rec(buf, |t|, |t|)
    ensures Str(h3, rec, t) && Grew(h, h3) && Foot(h3, rec) !! h.Keys
  {
    hide Read, Hdr;
    AgreeSubset(h2, h3, h2.Keys - Span(rec, 24), h.Keys);
    AgreeTrans(h, h2, h3, h.Keys);
    SpanInKeys(h2, buf, |t| + 7);
    SubSpan(buf, |t|, buf, |t| + 7);
    ReadAgree(h2, h3, buf, |t|, h2.Keys - Span(rec, 24));
    HasPart(h2, buf, |t| + 7, buf, |t|);
    HasKeys(h2, h3, buf, |t|);
  }

  // One segment: its bytes copied to a new string whose handle goes onto the vector.
  method AddSegment(a: Arena, v: int, src: int, n: nat, ghost hs: seq<int>, ghost vs: seq<View>) returns (ok: bool, rec: int)
    requires a.Valid() && Vec(a.mem, v, hs) && Views(a.mem, vs, v) && Has(a.mem, src, n)
    modifies a
    ensures a.Valid()
    ensures ok ==> Vec(a.mem, v, hs + [rec]) && Views(a.mem, vs + [View(rec, Read(old(a.mem), src, n))], v)
    ensures ok ==> Hdr(a.mem, v).cap == NextVecCap(Hdr(old(a.mem), v))
    ensures !ok ==> Exhausted(a.mem, 16 * Hdr(old(a.mem), v).cap + n + 32)
  {
    hide Read, Hdr, Vec, VecFoot, Text, Foot, Str, VecChanged, Exhausted, Grew;
    ghost var h := a.mem;
    ghost var seg := Read(h, src, n);
    VecCapNat(h, v, hs);
    rec := FromRange(a, src, n);
    if rec == 0 {
      MoreExhausted(a.mem, n + 24, 16 * Hdr(h, v).cap + n + 32);
      return false, rec;
    }
    ghost var g := a.mem;
    GrewVec(h, g, v, hs);
    GrewViews(h, g, vs, v, hs, View(rec, seg));
    ok := VecPush(a, v, rec, hs);
    if ok {
      ViewsSurvive(g, a.mem, vs + [View(rec, seg)], v);
    } else {
      MoreExhausted(a.mem, 16 * Hdr(g, v).cap + 32, 16 * Hdr(h, v).cap + n + 32);
    }
  }

  lemma VecCapNat(h: Bytes, v: int, es: seq<int>)
    requires Vec(h, v, es)
    ensures Hdr(h, v).cap >= 0
  {
    hide Load, Words;
  }

  lemma GrewVec(h: Bytes, h': Bytes, v: int, es: seq<int>)
    requires Grew(h, h') && Vec(h, v, es)
    ensures Vec(h', v, es) && VecFoot(h', v) == VecFoot(h, v) && Hdr(h', v) == Hdr(h, v)
  {
    hide Vec, Hdr;
    VecAllocated(h, v, es);
    VecAgree(h, h', v, es, h.Keys);
    HdrAgree(h, h', v, h.Keys);
  }

  lemma GrewViews(h: Bytes, h': Bytes, vs: seq<View>, v: int, es: seq<int>, new_: View)
    requires Grew(h, h') && Views(h, vs, v) && Vec(h, v, es) && VecFoot(h', v) == VecFoot(h, v)
    requires Str(h', new_.handle, new_.text) && Foot(h', new_.handle) !! h.Keys
    ensures Views(h', vs + [new_], v)
  {
    hide Vec, VecFoot, Hdr, Text, Grew;
    VecAllocated(h, v, es);
    StrText(h', new_.handle, new_.text);
    var all := vs + [new_];
    forall i | 0 <= i < |all| ensures Text(h', all[i].handle, all[i].text) && Foot(h', all[i].handle) !! VecFoot(h', v) {
      if i < |vs| {
        GrewKeeps(h, h', vs[i].handle, vs[i].text);
      }
    }
  }

  lemma ViewsSurvive(h: Bytes, h': Bytes, vs: seq<View>, v: int)
    requires VecChanged(h, h', v) && Views(h, vs, v)
    ensures Views(h', vs, v)
  {
    hide VecChanged, VecFoot, Text, Foot;
    forall i | 0 <= i < |vs| ensures Text(h', vs[i].handle, vs[i].text) && Foot(h', vs[i].handle) !! VecFoot(h', v) {
      TextSurvivesPush(h, h', v, vs[i].handle, vs[i].text);
    }
  }

  // What the vector of a split holds: a handle for every segment, in order.
  ghost predicate Holding(h: Bytes, v: int, hs: seq<int>, segs: seq<seq<int>>, vs: seq<View>) {
    && Vec(h, v, hs) && Views(h, vs, v) && |hs| == |segs| && |vs| == |segs| + 2
    && forall i | 0 <= i < |segs| :: vs[i + 2] == View(hs[i], segs[i])
  }

  // The room a vector of segments takes.
  ghost predicate Roomy(h: Bytes, v: int, n: nat) { Hdr(h, v).cap <= 2 * n + 4 }

  // Cuts t[start..end] off as the next segment.
  method CutSegment(a: Arena, v: int, s: int, start: nat, end: nat,
                    ghost t: seq<int>, ghost hs: seq<int>, ghost segs: seq<seq<int>>, ghost vs: seq<View>)
    returns (ok: bool, rec: int)
    requires a.Valid() && Holding(a.mem, v, hs, segs, vs) && vs[0] == View(s, t) && start <= end <= |t| && Roomy(a.mem, v, |segs|)
    modifies a
    ensures a.Valid()
    ensures ok ==> Holding(a.mem, v, hs + [rec], segs + [t[start..end]], vs + [View(rec, t[start..end])])
    ensures ok ==> Roomy(a.mem, v, |segs| + 1)
    ensures !ok ==> Exhausted(a.mem, 32 * |segs| + |t| + 96)
  {
    hide Load, Read, Vec, Exhausted;
    ghost var h := a.mem;
    assert Text(h, vs[0].handle, vs[0].text);
    PartOfText(h, s, t, start, end);
    RoomyStep(h, v, hs);
    var base: int := Load(a.mem, s);
    ok, rec := AddSegment(a, v, base + start, end - start, hs, vs);
    if ok {
      HoldingStep(a.mem, v, hs, segs, vs, rec, t[start..end]);
    } else {
      MoreExhausted(a.mem, 16 * Hdr(h, v).cap + (end - start) + 32, 32 * |segs| + |t| + 96);
    }
  }

  lemma PartOfText(h: Bytes, s: int, t: seq<int>, start: nat, end: nat)
    requires Text(h, s, t) && start <= end <= |t|
    ensures Load(h, s) == Hdr(h, s).addr && Load(h, s + 8) == |t|
    ensures Has(h, Hdr(h, s).addr + start, end - start)
    ensures Read(h, Hdr(h, s).addr + start, end - start) == t[start..end]
  {
    hide Load, Read;
    ReadPart(h, Hdr(h, s).addr, |t|, start, end - start);
    HasPart(h, Hdr(h, s).addr, |t|, Hdr(h, s).addr + start, end - start);
  }

  lemma RoomyStep(h: Bytes, v: int, hs: seq<int>)
    requires Vec(h, v, hs) && Roomy(h, v, |hs|)
    ensures NextVecCap(Hdr(h, v)) <= 2 * (|hs| + 1) + 4
  {
    hide Load, Words;
    NextVecCapBound(h, v, hs);
  }

  lemma HoldingStep(h: Bytes, v: int, hs: seq<int>, segs: seq<seq<int>>, vs: seq<View>, rec: int, seg: seq<int>)
    requires |hs| == |segs| && |vs| == |segs| + 2 && forall i | 0 <= i < |segs| :: vs[i + 2] == View(hs[i], segs[i])
    requires Vec(h, v, hs + [rec]) && Views(h, vs + [View(rec, seg)], v)
    ensures Holding(h, v, hs + [rec], segs + [seg], vs + [View(rec, seg)])
  {
    hide Vec, Views;
    var vs', hs', segs' := vs + [View(rec, seg)], hs + [rec], segs + [seg];
    forall i | 0 <= i < |segs'| ensures vs'[i + 2] == View(hs'[i], segs'[i]) {
      assert i < |segs| ==> vs'[i + 2] == vs[i + 2];
    }
  }

  lemma HoldingStart(h: Bytes, h': Bytes, v: int, s: int, t: seq<int>, sep: int, sp: seq<int>)
    requires Text(h, s, t) && Text(h, sep, sp) && Grew(h, h') && Vec(h', v, []) && VecFoot(h', v) !! h.Keys
    ensures Holding(h', v, [], [], [View(s, t), View(sep, sp)])
  {
    hide Vec, VecFoot, Text, Hdr;
    FootAllocated(h, s, t);
    FootAllocated(h, sep, sp);
    GrewKeeps(h, h', s, t);
    GrewKeeps(h, h', sep, sp);
  }

  lemma {:induction false} LeadCounts(segs: seq<seq<int>>, sep: seq<int>)
    requires sep != []
    ensures |segs| <= |Lead(segs, sep)|
  {
    if segs != [] {
      LeadCounts(segs[1..], sep);
    }
  }

  // memcmp of the separator with the bytes at i.
  method MatchesAt(a: Arena, s: int, sep: int, i: nat, ghost t: seq<int>, ghost sp: seq<int>) returns (b: bool)
    requires Text(a.mem, s, t) && Text(a.mem, sep, sp) && i + |sp| <= |t|
    ensures b == Matches(t, sp, i)
  {
    hide Load, Read;
    PartOfText(a.mem, s, t, i, i + |sp|);
    PartOfText(a.mem, sep, sp, 0, |sp|);
    var saddr: int, sepaddr: int, seplen: int := Load(a.mem, s), Load(a.mem, sep), Load(a.mem, sep + 8);
    b := Read(a.mem, saddr + i, seplen) == Read(a.mem, sepaddr, seplen);
  }

  // Every element of the vector is a string that reads as its segment.
  ghost predicate Segments(h: Bytes, v: int, hs: seq<int>, segs: seq<seq<int>>) {
    Vec(h, v, hs) && |hs| == |segs| && forall i | 0 <= i < |segs| :: Text(h, hs[i], segs[i])
  }

  lemma HoldingSegments(h: Bytes, v: int, hs: seq<int>, segs: seq<seq<int>>, vs: seq<View>)
    requires Holding(h, v, hs, segs, vs)
    ensures Segments(h, v, hs, segs) && Text(h, vs[0].handle, vs[0].text) && Text(h, vs[1].handle, vs[1].text)
  {
    hide Vec, Text, VecFoot, Foot;
    forall i | 0 <= i < |segs| ensures Text(h, hs[i], segs[i]) {
      assert Text(h, vs[i + 2].handle, vs[i + 2].text);
    }
  }

  // string_split; 0 when malloc fails.
  method StringSplit(a: Arena, s: int, sep: int, ghost t: seq<int>, ghost sp: seq<int>)
    returns (v: int, ghost hs: seq<int>, ghost segs: seq<seq<int>>)
    requires a.Valid() && Text(a.mem, s, t) && Text(a.mem, sep, sp)
    modifies a
    ensures a.Valid() && v >= 0 && (v == 0 ==> Exhausted(a.mem, 33 * |t| + 96))
    ensures v > 0 ==> Segments(a.mem, v, hs, segs) && Text(a.mem, s, t) && Text(a.mem, sep, sp)
    ensures v > 0 ==> if sp == [] then segs == [t] else IsSplit(t, sp, segs)
  {
    hide Load, Text, Vec, VecFoot, Holding, Exhausted, Scanned, Matches, IsSplit, Segments, Lead, Roomy;
    ghost var h := a.mem;
    hs, segs := [], [];
    v := VecNew(a);
    if v == 0 {
      MoreExhausted(a.mem, 24, 33 * |t| + 96);
      return;
    }
    SplitStart(h, a.mem, v, s, t, sep, sp);
    ghost var vs := [View(s, t), View(sep, sp)];
    var slen := TextLen(a, s, t);
    var seplen := TextLen(a, sep, sp);
    var start, i := 0, 0;
    if seplen > 0 {
      ScanStarts(t, sp);
      while i + seplen <= slen
        invariant a.Valid() && v > 0 && Holding(a.mem, v, hs, segs, vs) && Roomy(a.mem, v, |segs|)
        invariant |vs| >= 2 && vs[0] == View(s, t) && vs[1] == View(sep, sp)
        invariant 0 <= start <= i && start <= |t| && Scanned(t, sp, segs, start, i)
        decreases slen - i
      {
        HoldingSegments(a.mem, v, hs, segs, vs);
        var found := MatchesAt(a, s, sep, i, t, sp);
        if found {
          ScanCut(t, sp, segs, start, i);
          SegmentCount(t, sp, segs, start, i);
          var ok, rec := CutSegment(a, v, s, start, i, t, hs, segs, vs);
          if !ok {
            MoreExhausted(a.mem, 32 * |segs| + |t| + 96, 33 * |t| + 96);
            v := 0;
            return;
          }
          hs, segs, vs := hs + [rec], segs + [t[start..i]], vs + [View(rec, t[start..i])];
          i := i + seplen;
          start := i;
        } else {
          ScanSkip(t, sp, segs, start, i);
          i := i + 1;
        }
      }
      SegmentCount(t, sp, segs, start, i);
      ScanEnds(t, sp, segs, start, i);
    }
    assert t[start..slen] == t[start..];
    var ok, rec := CutSegment(a, v, s, start, slen, t, hs, segs, vs);
    if !ok {
      MoreExhausted(a.mem, 32 * |segs| + |t| + 96, 33 * |t| + 96);
      v := 0;
      return;
    }
    HoldingSegments(a.mem, v, hs + [rec], segs + [t[start..slen]], vs + [View(rec, t[start..slen])]);
    hs, segs := hs + [rec], segs + [t[start..slen]];
  }

  lemma SplitStart(h: Bytes, h': Bytes, v: int, s: int, t: seq<int>, sep: int, sp: seq<int>)
    requires Text(h, s, t) && Text(h, sep, sp) && h.Keys <= h'.Keys && Agree(h, h', h.Keys)
    requires Vec(h', v, []) && VecFoot(h', v) !! h.Keys && Hdr(h', v).cap == 0
    ensures Holding(h', v, [], [], [View(s, t), View(sep, sp)]) && Roomy(h', v, 0)
    ensures Text(h', s, t) && Text(h', sep, sp)
  {
    hide Vec, VecFoot, Text, Hdr, Holding;
    HoldingStart(h, h', v, s, t, sep, sp);
    HoldingSegments(h', v, [], [], [View(s, t), View(sep, sp)]);
  }

  lemma ScanStarts(s: seq<int>, sep: seq<int>)
    ensures Scanned(s, sep, [], 0, 0)
  {
    assert s == [] + s[0..];
  }

  lemma ScanSkip(s: seq<int>, sep: seq<int>, segs: seq<seq<int>>, start: nat, i: nat)
    requires Scanned(s, sep, segs, start, i) && !Matches(s, sep, i)
    ensures Scanned(s, sep, segs, start, i + 1)
  {
    hide Matches, Lead, UpToFirst;
  }

  lemma SegmentCount(s: seq<int>, sep: seq<int>, segs: seq<seq<int>>, start: nat, i: nat)
    requires sep != [] && Scanned(s, sep, segs, start, i)
    ensures |segs| <= |s|
  {
    LeadCounts(segs, sep);
  }
}
