/**
 GenRef over whole runs: no handle is issued twice, and a handle reads its pointer exactly
 while it has been issued and not freed.
 */
module GenRefRuns {
  import opened Fixed
  import opened GenRef

  datatype Op = DoAlloc(bytes: int, p: int) | DoFree(h: i64) | DoDeref(h: i64)

  // The table, and the history of the run that led to it.
  datatype History = History(
    t: Table,
    live: map<i64, int>,          // handles issued and not freed since, with their pointers
    issued: set<i64>,             // every handle ever issued
    peak: nat,                    // the most handles ever live at once
    mallocs: multiset<int>,       // pointers obtained from malloc
    frees: multiset<int>)         // pointers passed to free

  function Start(): History {
    History(Table([], 0), map[], {}, 0, multiset{}, multiset{})
  }

  function Max(a: nat, b: nat): nat { if a > b then a else b }

  // What the caller sees of an operation: its outcome on the table.
  function Outcomes(t: Table, op: Op): Outcome
    requires t.len <= |t.slots|
  {
    match op
    case DoAlloc(bytes, p) => Alloc(t, bytes, p)
    case DoFree(h) => Free(t, h)
    case DoDeref(h) => Returned(t, Deref(t, h))
  }

  // The run goes on when the operation returned.
  predicate Goes(s: History, op: Op) {
    s.t.len <= |s.t.slots| && Outcomes(s.t, op).Returned?
  }

  // The history records only what the calls were given and returned, except for `frees`,
  // which follows the table.
  function Next(s: History, op: Op): History
    requires Goes(s, op)
  {
    var out := Outcomes(s.t, op);
    match op
    case DoAlloc(bytes, p) =>
      if out.r == 0 then s.(t := out.t)
      else
        var live := s.live[out.r := p];
        s.(t := out.t, live := live, issued := s.issued + {out.r}, peak := Max(s.peak, |live|),
           mallocs := s.mallocs + multiset{p})
    case DoFree(h) =>
      s.(t := out.t, live := s.live - {h},
         frees := if Live(s.t, h) then s.frees + multiset{s.t.slots[SlotOf(h)].ptr} else s.frees)
    case DoDeref(h) => s
  }

  predicate Run(s: History, ops: seq<Op>, s': History)
    decreases |ops|
  {
    if ops == [] then s' == s else Goes(s, ops[0]) && Run(Next(s, ops[0]), ops[1..], s')
  }

  // ----- the invariant

  // The initial capacity, doubled some number of times.
  ghost predicate Doubled(cap: nat) {
    exists k: nat :: cap == 16 * Pow2(k)
  }

  ghost predicate Sound(t: Table) {
    && t.len <= |t.slots| <= TWO31
    && (t.slots == [] || Doubled(|t.slots|))
    && (forall i | 0 <= i < |t.slots| :: 1 <= t.slots[i].generation < TWO32)
    && (forall i | t.len <= i < |t.slots| :: t.slots[i] == FRESH)
  }

  // h is the handle of slot i while i is in use.
  ghost predicate LiveOk(s: History, h: i64)
    requires s.t.len <= |s.t.slots|
  {
    h in s.live && Live(s.t, h) && s.live[h] == s.t.slots[SlotOf(h)].ptr
  }

  // A handle once issued is current or strictly older than its slot.
  ghost predicate IssuedOk(t: Table, h: int)
    requires t.len <= |t.slots|
  {
    h != 0 && SlotOf(h) < t.len && (GenOf(h) < t.slots[SlotOf(h)].generation || Live(t, h))
  }

  ghost predicate SlotOk(s: History, i: nat)
    requires i < |s.t.slots|
  {
    s.t.slots[i].inUse ==> Pack(i, s.t.slots[i].generation) in s.live
  }

  function Used(slots: seq<Slot>, n: nat): (k: nat)
    requires n <= |slots|
    ensures k <= n
  {
    if n == 0 then 0 else Used(slots, n - 1) + (if slots[n - 1].inUse then 1 else 0)
  }

  function Pointers(slots: seq<Slot>, n: nat): multiset<int>
    requires n <= |slots|
  {
    if n == 0 then multiset{}
    else Pointers(slots, n - 1) + (if slots[n - 1].inUse then multiset{slots[n - 1].ptr} else multiset{})
  }

  ghost predicate Handles(s: History)
    requires s.t.len <= |s.t.slots|
  {
    && (forall h | h in s.live :: LiveOk(s, h))
    && (forall h | h in s.issued :: IssuedOk(s.t, h))
    && (forall i | 0 <= i < s.t.len :: SlotOk(s, i))
    && s.live.Keys <= s.issued
  }

  ghost predicate Totals(s: History)
    requires s.t.len <= |s.t.slots|
  {
    && |s.live| == Used(s.t.slots, s.t.len)
    && s.peak == s.t.len
    && s.mallocs == s.frees + Pointers(s.t.slots, s.t.len)
    && Snug(s.t)
  }

  // The table is doubled only when it is full.
  predicate Snug(t: Table) { |t.slots| <= 16 || |t.slots| < 2 * t.len }

  ghost predicate Inv(s: History) {
    Sound(s.t) && Handles(s) && Totals(s)
  }

  lemma HandlesFrame(s: History, s': History)
    requires s.t.len <= |s.t.slots| && Handles(s) && s'.t == s.t && s'.live == s.live && s'.issued == s.issued
    ensures Handles(s')
  {
    hide Live, Pack;
    forall h | h in s'.live ensures LiveOk(s', h) {
      assert LiveOk(s, h);
    }
    forall i | 0 <= i < s'.t.len ensures SlotOk(s', i) {
      assert SlotOk(s, i);
    }
  }

  lemma StartInv()
    ensures Inv(Start())
  {
  }

  // ----- counting slots

  lemma {:induction false} UsedCongruent(a: seq<Slot>, b: seq<Slot>, n: nat)
    requires n <= |a| && n <= |b| && forall i | 0 <= i < n :: a[i] == b[i]
    ensures Used(a, n) == Used(b, n) && Pointers(a, n) == Pointers(b, n)
  {
    if n > 0 {
      UsedCongruent(a, b, n - 1);
    }
  }

  // Claiming a free slot adds one user and its pointer.
  lemma {:induction false} UsedClaim(a: seq<Slot>, n: nat, k: nat, p: int)
    requires k < n <= |a| && !a[k].inUse
    ensures var b := a[k := a[k].(ptr := p, inUse := true)];
            Used(b, n) == Used(a, n) + 1 && Pointers(b, n) == Pointers(a, n) + multiset{p}
  {
    var b := a[k := a[k].(ptr := p, inUse := true)];
    if k == n - 1 {
      UsedCongruent(a, b, n - 1);
    } else {
      UsedClaim(a, n - 1, k, p);
    }
  }

  lemma {:induction false} UsedRelease(a: seq<Slot>, n: nat, k: nat, s: Slot)
    requires k < n <= |a| && a[k].inUse && !s.inUse
    ensures Used(a[k := s], n) == Used(a, n) - 1
    ensures Pointers(a, n) == Pointers(a[k := s], n) + multiset{a[k].ptr}
  {
    if k == n - 1 {
      UsedCongruent(a, a[k := s], n - 1);
    } else {
      UsedRelease(a, n - 1, k, s);
    }
  }

  lemma {:induction false} AllUsed(a: seq<Slot>, n: nat)
    requires n <= |a| && forall i | 0 <= i < n :: a[i].inUse
    ensures Used(a, n) == n
  {
    if n > 0 {
      AllUsed(a, n - 1);
    }
  }

  // ----- allocation

  // The table an allocation works on before it claims slot k: initialised, grown if full.
  ghost predicate Prepared(s: History, t: Table, k: nat) {
    && Sound(t) && k < |t.slots| && !t.slots[k].inUse && k <= t.len
    && s.t.len == t.len
    && (forall i | 0 <= i < t.len :: i < |s.t.slots| && t.slots[i] == s.t.slots[i])
    && (forall i | 0 <= i < k :: t.slots[i].inUse)
  }

  lemma InitSound(t: Table)
    requires Sound(t)
    ensures Sound(EnsureInit(t)) && EnsureInit(t).len == t.len && EnsureInit(t).slots != []
    ensures t.slots != [] ==> EnsureInit(t) == t
  {
    if t.slots == [] {
      assert |EnsureInit(t).slots| == INIT_CAP * Pow2(0);
    }
  }

  lemma GrownSound(t: Table)
    requires Sound(t) && t.slots != [] && !(t.len >= |t.slots| && U32(2 * |t.slots|) == 0)
    ensures Sound(Grown(t)) && t.len < |Grown(t).slots| && Grown(t).len == t.len
    ensures forall i | 0 <= i < t.len :: Grown(t).slots[i] == t.slots[i]
  {
    if t.len >= |t.slots| {
      var k: nat :| |t.slots| == INIT_CAP * Pow2(k);
      CapFits(k);
      assert |Grown(t).slots| == INIT_CAP * Pow2(k + 1);
    }
  }

  // A capacity below 2^31 doubles to at most 2^31.
  lemma CapFits(k: nat)
    requires INIT_CAP * Pow2(k) < TWO31
    ensures INIT_CAP * Pow2(k + 1) <= TWO31
  {
    assert Pow2(27) == 0x800_0000 by {
      assert Pow2(9) == 0x200;
      assert Pow2(18) == 0x4_0000;
    }
    if k >= 27 {
      Pow2Grows(27, k);
    } else {
      Pow2Grows(k + 1, 27);
    }
  }

  // A successful allocation claims the lowest free slot of a prepared table.
  lemma AllocClaims(s: History, bytes: int, p: int) returns (t: Table, k: nat)
    requires Sound(s.t) && bytes > 0 && Alloc(s.t, bytes, p).Returned?
    ensures p != 0 && Prepared(s, t, k)
    ensures |t.slots| <= 16 || |t.slots| == |s.t.slots| || (k == t.len && |t.slots| == 2 * t.len)
    ensures var out := Alloc(s.t, bytes, p);
            out.t == Claim(t, k, p).(len := if k == t.len then t.len + 1 else t.len)
            && out.r == Pack(k, t.slots[k].generation)
  {
    hide Pack, U32;
    InitSound(s.t);
    var t1 := EnsureInit(s.t);
    k := FreeFrom(t1.slots, 0, t1.len);
    if k < t1.len {
      t := t1;
    } else {
      GrownSound(t1);
      t := Grown(t1);
    }
  }

  lemma AllocHandles(s: History, t: Table, k: nat, p: int, t': Table)
    requires Sound(s.t) && Handles(s) && Prepared(s, t, k)
    requires t' == Claim(t, k, p).(len := if k == t.len then t.len + 1 else t.len)
    ensures var h := Pack(k, t.slots[k].generation);
            && h != 0 && h !in s.issued
            && Sound(t') && Handles(s.(t := t', live := s.live[h := p], issued := s.issued + {h}))
  {
    hide Pack, SlotOf, GenOf;
    var g := t.slots[k].generation;
    var h := Pack(k, g);
    PackParts(k, g);
    assert h in s.issued ==> IssuedOk(s.t, h);
    var s' := s.(t := t', live := s.live[h := p], issued := s.issued + {h});
    forall x | x in s'.live ensures LiveOk(s', x) {
      if x != h {
        assert LiveOk(s, x);
      }
    }
    forall x | x in s'.issued ensures IssuedOk(t', x) {
      if x != h {
        assert IssuedOk(s.t, x);
      }
    }
    forall i | 0 <= i < t'.len ensures SlotOk(s', i) {
      if i != k {
        assert SlotOk(s, i);
      }
    }
  }

  lemma AllocTotals(s: History, t: Table, k: nat, p: int, t': Table)
    requires Sound(s.t) && Totals(s) && Prepared(s, t, k)
    requires t' == Claim(t, k, p).(len := if k == t.len then t.len + 1 else t.len)
    ensures t'.len <= |t'.slots| && Used(t'.slots, t'.len) == |s.live| + 1
    ensures t'.len == Max(s.peak, |s.live| + 1)
    ensures Pointers(t'.slots, t'.len) == Pointers(s.t.slots, s.t.len) + multiset{p}
  {
    UsedCongruent(s.t.slots, t.slots, t.len);
    if k == t.len {
      AllUsed(t.slots, t.len);
      UsedCongruent(t.slots, t'.slots, t.len);
    } else {
      UsedClaim(t.slots, t.len, k, p);
    }
  }

  lemma AllocSnug(s: History, t: Table, k: nat, p: int, t': Table)
    requires Snug(s.t) && Prepared(s, t, k)
    requires t' == Claim(t, k, p).(len := if k == t.len then t.len + 1 else t.len)
    requires |t.slots| <= 16 || |t.slots| == |s.t.slots| || (k == t.len && |t.slots| == 2 * t.len)
    ensures Snug(t')
  {
    hide Sound;
  }

  // What every allocation promises: a non-zero handle never issued before, for the pointer
  // malloc gave, in the lowest free slot; and the table stays sound.
  lemma AllocInv(s: History, bytes: int, p: int)
    requires Inv(s) && Goes(s, DoAlloc(bytes, p)) && bytes > 0
    ensures var h := Alloc(s.t, bytes, p).r; h != 0 && h !in s.issued
    ensures Inv(Next(s, DoAlloc(bytes, p)))
  {
    hide Sound, Handles, Pack, Alloc, Used, Pointers, Prepared;
    var t, k := AllocClaims(s, bytes, p);
    var out := Alloc(s.t, bytes, p);
    AllocHandles(s, t, k, p, out.t);
    AllocTotals(s, t, k, p, out.t);
    AllocSnug(s, t, k, p, out.t);
    var s' := Next(s, DoAlloc(bytes, p));
    HandlesFrame(s.(t := out.t, live := s.live[out.r := p], issued := s.issued + {out.r}), s');
    LiveFresh(s, out.r);
    assert |s'.live| == |s.live| + 1;
  }

  lemma LiveFresh(s: History, h: i64)
    requires s.t.len <= |s.t.slots| && Handles(s) && h !in s.issued
    ensures h !in s.live
  {
  }

  // ----- freeing

  lemma LiveIffHeld(s: History, h: i64)
    requires Sound(s.t) && Handles(s)
    ensures Live(s.t, h) <==> h in s.live
  {
    hide Pack, SlotOf, GenOf;
    if h in s.live {
      assert LiveOk(s, h);
    }
    if Live(s.t, h) {
      PackOfParts(h);
      assert SlotOk(s, SlotOf(h));
    }
  }

  lemma FreeHandles(s: History, h: i64, t': Table)
    requires Sound(s.t) && Handles(s) && Live(s.t, h) && Free(s.t, h) == Returned(t', 0)
    ensures Sound(t') && Handles(s.(t := t', live := s.live - {h}))
  {
    hide Pack, SlotOf, GenOf;
    var k := SlotOf(h);
    var s' := s.(t := t', live := s.live - {h});
    PackOfParts(h);
    forall x | x in s'.live ensures LiveOk(s', x) {
      assert LiveOk(s, x);
      if SlotOf(x) == k {
        HandleOfSlot(s, x, h);
      }
    }
    forall x | x in s'.issued ensures IssuedOk(t', x) {
      assert IssuedOk(s.t, x);
    }
    forall i | 0 <= i < t'.len ensures SlotOk(s', i) {
      assert SlotOk(s, i);
      if i != k && s.t.slots[i].inUse {
        PackParts(i, s.t.slots[i].generation);
      }
    }
  }

  // Two live handles of one slot are the same handle.
  lemma HandleOfSlot(s: History, x: i64, h: i64)
    requires Sound(s.t) && Handles(s) && x in s.live && Live(s.t, h) && SlotOf(x) == SlotOf(h)
    ensures x == h
  {
    hide SlotOf, GenOf, Pack;
    assert LiveOk(s, x);
    PackOfParts(x);
    PackOfParts(h);
  }

  lemma RemoveOne(m: map<i64, int>, h: i64)
    requires h in m
    ensures |m - {h}| == |m| - 1
  {
    assert (m - {h}).Keys == m.Keys - {h};
  }

  lemma FreeInv(s: History, h: i64)
    requires Inv(s) && Goes(s, DoFree(h))
    ensures Inv(Next(s, DoFree(h)))
  {
    hide Sound, Handles, Used, Pointers;
    LiveIffHeld(s, h);
    if Live(s.t, h) {
      var t' := Free(s.t, h).t;
      FreeHandles(s, h, t');
      UsedRelease(s.t.slots, s.t.len, SlotOf(h), t'.slots[SlotOf(h)]);
      HandlesFrame(s.(t := t', live := s.live - {h}), Next(s, DoFree(h)));
      RemoveOne(s.live, h);
    } else {
      assert s.live - {h} == s.live;
    }
  }

  // ----- runs

  lemma {:induction false} StepInv(s: History, op: Op)
    requires Inv(s) && Goes(s, op)
    ensures Inv(Next(s, op))
  {
    hide Inv;
    match op
    case DoAlloc(bytes, p) =>
      if bytes > 0 { AllocInv(s, bytes, p); }
    case DoFree(h) => FreeInv(s, h);
    case DoDeref(h) =>
  }

  lemma {:induction false} RunInv(s: History, ops: seq<Op>, s': History)
    requires Inv(s) && Run(s, ops, s')
    ensures Inv(s') && s.issued <= s'.issued
    decreases |ops|
  {
    hide Inv;
    if ops != [] {
      StepInv(s, ops[0]);
      RunInv(Next(s, ops[0]), ops[1..], s');
    }
  }

  // After any run, for every 64-bit value: it dereferences to the pointer it was issued for
  // while it is issued and not freed, and to zero otherwise, however its slot was reused and
  // the table grown; and freeing it again changes nothing.
  lemma DerefIffLive(ops: seq<Op>, s: History, h: i64)
    requires Run(Start(), ops, s)
    ensures s.t.len <= |s.t.slots|
    ensures Deref(s.t, h) == if h in s.live then s.live[h] else 0
    ensures h !in s.live ==> Free(s.t, h) == Returned(s.t, 0)
    ensures h in s.live ==> h in s.issued && h != 0
  {
    StartInv();
    RunInv(Start(), ops, s);
    hide SlotOf, GenOf, Pack;
    LiveIffHeld(s, h);
    if h in s.live {
      assert LiveOk(s, h);
    }
  }

  // After any run the next allocation, if it returns, returns a handle that is not zero and
  // that no earlier allocation of the run returned.
  lemma HandlesNeverRepeat(ops: seq<Op>, s: History, bytes: int, p: int)
    requires Run(Start(), ops, s) && Goes(s, DoAlloc(bytes, p)) && bytes > 0
    ensures var h := Alloc(s.t, bytes, p).r; h != 0 && h !in s.issued
  {
    StartInv();
    RunInv(Start(), ops, s);
    AllocInv(s, bytes, p);
  }

  // The stale handles of a run stay stale in every continuation of it.
  lemma {:induction false} FreedStaysDead(s: History, ops: seq<Op>, s': History, h: i64)
    requires Inv(s) && Run(s, ops, s') && h in s.issued && h !in s.live
    ensures h !in s'.live && s'.t.len <= |s'.t.slots| && Deref(s'.t, h) == 0
    decreases |ops|
  {
    if ops == [] {
      LiveIffHeld(s, h);
    } else {
      hide Alloc, Free;
      StepInv(s, ops[0]);
      if ops[0].DoAlloc? && ops[0].bytes > 0 {
        AllocInv(s, ops[0].bytes, ops[0].p);
      } else if ops[0].DoAlloc? {
        AllocNothing(s.t, ops[0].bytes, ops[0].p);
      }
      FreedStaysDead(Next(s, ops[0]), ops[1..], s', h);
    }
  }

  lemma AllocNothing(t: Table, bytes: int, p: int)
    requires t.len <= |t.slots| && bytes <= 0
    ensures Alloc(t, bytes, p) == Returned(t, 0)
  {
  }

  // After any run the table has as many slots in play as handles were ever live at once, its
  // capacity is zero or 16 * 2^k and holds them, and every pointer obtained from malloc is
  // either still held by exactly one live slot or has been freed once.
  lemma TableIsTight(ops: seq<Op>, s: History)
    requires Run(Start(), ops, s)
    ensures s.t.len == s.peak && s.t.len <= |s.t.slots|
    ensures s.t.slots == [] || Doubled(|s.t.slots|)
    ensures |s.t.slots| <= 16 || |s.t.slots| < 2 * s.peak
    ensures s.mallocs == s.frees + Pointers(s.t.slots, s.t.len)
    ensures |s.live| == Used(s.t.slots, s.t.len)
  {
    StartInv();
    RunInv(Start(), ops, s);
  }

  // A run stops only on a failed malloc, on the 2^32nd free of one slot, or when all 2^31
  // slots are in use.
  lemma WhenARunStops(ops: seq<Op>, s: History, op: Op)
    requires Run(Start(), ops, s)
    ensures s.t.len <= |s.t.slots|
    ensures !Goes(s, op) <==>
              || (op.DoAlloc? && op.bytes > 0 && (op.p == 0 || |s.live| == TWO31))
              || (op.DoFree? && op.h in s.live && GenOf(op.h) == TWO32 - 1)
  {
    StartInv();
    RunInv(Start(), ops, s);
    match op
    case DoAlloc(bytes, p) => if bytes > 0 && p != 0 { WhenFull(s, bytes, p); }
    case DoFree(h) => LiveIffHeld(s, h);
    case DoDeref(_) =>
  }

  lemma WhenFull(s: History, bytes: int, p: int)
    requires Inv(s) && bytes > 0 && p != 0
    ensures Alloc(s.t, bytes, p).Returned? <==> |s.live| != TWO31
  {
    hide Pack, Handles;
    InitSound(s.t);
    var t1 := EnsureInit(s.t);
    var k := FreeFrom(t1.slots, 0, t1.len);
    if k == t1.len {
      AllUsed(t1.slots, t1.len);
      UsedCongruent(s.t.slots, t1.slots, t1.len);
    } else {
      NotAllUsed(s.t.slots, s.t.len, k);
    }
  }

  lemma {:induction false} NotAllUsed(a: seq<Slot>, n: nat, k: nat)
    requires k < n <= |a| && !a[k].inUse
    ensures Used(a, n) < n
  {
    if k < n - 1 {
      NotAllUsed(a, n - 1, k);
    }
  }
}
