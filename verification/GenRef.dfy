/**
 Generation-checked handles: the slot table and its three operations.
 */
module GenRef {
  import opened Fixed

  const INIT_CAP := 16

  datatype Slot = Slot(ptr: int, generation: nat, inUse: bool)

  // The table's value.  cap is |slots|; a table never initialised has no slots.
  datatype Table = Table(slots: seq<Slot>, len: nat)

  // What a call does: it returns, it aborts, or the doubled 32-bit capacity wraps to zero.
  datatype Outcome = Returned(t: Table, r: int) | Aborted | CapacityWrapped

  // ----- handles

  function Pack(slot: nat, gen: nat): i64 { ToI64(slot * TWO32 + gen) }

  function SlotOf(h: int): nat { U64(h) / TWO32 }

  function GenOf(h: int): nat { U64(h) % TWO32 }

  lemma PackParts(slot: nat, gen: nat)
    requires slot < TWO31 && 1 <= gen < TWO32
    ensures SlotOf(Pack(slot, gen)) == slot && GenOf(Pack(slot, gen)) == gen && Pack(slot, gen) != 0
    ensures Pack(slot, gen) == 0x1_0000_0000 * slot + gen
  {
    assert slot * TWO32 + gen < TWO63;
  }

  // The first handle a process is given is 1.
  lemma FirstHandle(bytes: int, p: int)
    requires bytes > 0 && p != 0
    ensures Alloc(Table([], 0), bytes, p).Returned? && Alloc(Table([], 0), bytes, p).r == 1
  {
    PackParts(0, 1);
  }

  lemma PackOfParts(h: i64)
    requires SlotOf(h) < TWO31
    ensures Pack(SlotOf(h), GenOf(h)) == h
  {
  }

  // ----- the operations on values

  const FRESH := Slot(0, 1, false)

  function EnsureInit(t: Table): Table {
    if t.slots == [] then Table(seq(INIT_CAP, _ => FRESH), 0) else t
  }

  // The first slot from i on, below n, that is not in use; n when there is none.
  function FreeFrom(slots: seq<Slot>, i: nat, n: nat): (k: nat)
    requires i <= n <= |slots|
    ensures i <= k <= n
    ensures forall j | i <= j < k :: slots[j].inUse
    ensures k < n ==> !slots[k].inUse
    decreases n - i
  {
    if i == n || !slots[i].inUse then i else FreeFrom(slots, i + 1, n)
  }

  // Claim slot k for pointer p.
  function Claim(t: Table, k: nat, p: int): Table
    requires k < |t.slots|
  {
    t.(slots := t.slots[k := t.slots[k].(ptr := p, inUse := true)])
  }

  function Grown(t: Table): Table {
    if t.len >= |t.slots| then t.(slots := t.slots + seq(|t.slots|, _ => FRESH)) else t
  }

  // p is what malloc returned, 0 when it failed.
  function Alloc(t: Table, bytes: int, p: int): Outcome
    requires t.len <= |t.slots|
  {
    if bytes <= 0 then Returned(t, 0)
    else if p == 0 then Aborted
    else
      var t1 := EnsureInit(t);
      var k := FreeFrom(t1.slots, 0, t1.len);
      if k < t1.len then Returned(Claim(t1, k, p), Pack(k, t1.slots[k].generation))
      else if t1.len >= |t1.slots| && U32(2 * |t1.slots|) == 0 then CapacityWrapped
      else
        var t2 := Grown(t1);
        Returned(Claim(t2, t1.len, p).(len := t1.len + 1), Pack(t1.len, t2.slots[t1.len].generation))
  }

  predicate Live(t: Table, h: int)
    requires t.len <= |t.slots|
  {
    h != 0 && SlotOf(h) < t.len && t.slots[SlotOf(h)].generation == GenOf(h) && t.slots[SlotOf(h)].inUse
  }

  function Deref(t: Table, h: int): int
    requires t.len <= |t.slots|
  {
    if Live(t, h) then t.slots[SlotOf(h)].ptr else 0
  }

  function Free(t: Table, h: int): Outcome
    requires t.len <= |t.slots|
  {
    if !Live(t, h) then Returned(t, 0)
    else
      var k := SlotOf(h);
      if t.slots[k].generation == TWO32 - 1 then Aborted
      else Returned(t.(slots := t.slots[k := Slot(0, t.slots[k].generation + 1, false)]), 0)
  }

  // A freed slot that is the lowest free one is handed out again with the next generation.
  lemma ReissuedHandle(t: Table, h: i64, bytes: int, p: int)
    requires t.len <= |t.slots| && Live(t, h) && Free(t, h).Returned? && SlotOf(h) < TWO31 && bytes > 0 && p != 0
    requires forall i | 0 <= i < SlotOf(h) :: t.slots[i].inUse
    ensures var out := Alloc(Free(t, h).t, bytes, p); out.Returned? && out.r == h + 1
  {
    hide Pack, SlotOf, GenOf;
    PackOfParts(h);
    GenRange(h);
    PackParts(SlotOf(h), GenOf(h) + 1);
    if GenOf(h) > 0 {
      PackParts(SlotOf(h), GenOf(h));
    } else {
      PackZero(SlotOf(h));
    }
    var t' := Free(t, h).t;
    var k := FreeFrom(t'.slots, 0, t'.len);
    assert !t'.slots[SlotOf(h)].inUse;
    assert k == SlotOf(h);
  }

  lemma GenRange(h: int)
    ensures 0 <= GenOf(h) < TWO32
  {
  }

  lemma PackZero(slot: nat)
    requires slot < TWO31
    ensures Pack(slot, 0) == 0x1_0000_0000 * slot
  {
  }

  // ----- the runtime's static table

  class Runtime {
    var slots: seq<Slot>
    var len: nat
    ghost var freed: seq<int>               // what free() has been called with

    ghost predicate Valid()
      reads this
    {
      len <= |slots|
    }

    function Value(): Table
      reads this
    {
      Table(slots, len)
    }

    constructor ()
      ensures Valid() && Value() == Table([], 0) && freed == []
    {
      freed := [];
      slots, len := [], 0;
    }

    method Init()
      requires Valid()
      modifies this
      ensures Valid() && Value() == EnsureInit(old(Value()))
    {
      if slots != [] {
        return;
      }
      slots := seq(INIT_CAP, _ => FRESH);
      len := 0;
    }

    // __mind_gen_alloc
    method GenAlloc(bytes: int, p: int) returns (out: Outcome)
      requires Valid()
      modifies this
      ensures Valid() && out == Alloc(old(Value()), bytes, p)
      ensures out.Returned? ==> Value() == out.t
    {
      if bytes <= 0 {
        return Returned(Value(), 0);
      }
      if p == 0 {
        return Aborted;
      }
      Init();
      var k := FindFree();
      if k == len {
        if len >= |slots| {
          var newCap := U32(|slots| * 2);
          if newCap == 0 {
            return CapacityWrapped;
          }
          slots := slots + seq(|slots|, _ => FRESH);
        }
        len := len + 1;
      }
      slots := slots[k := slots[k].(ptr := p, inUse := true)];
      return Returned(Value(), Pack(k, slots[k].generation));
    }

    // The scan for a slot to reuse.
    method FindFree() returns (k: nat)
      requires Valid()
      ensures k == FreeFrom(slots, 0, len)
    {
      k := 0;
      while k < len && slots[k].inUse
        invariant k <= len && FreeFrom(slots, k, len) == FreeFrom(slots, 0, len)
      {
        k := k + 1;
      }
    }

    // __mind_gen_deref
    method GenDeref(h: int) returns (r: int)
      requires Valid()
      ensures r == Deref(Value(), h)
    {
      if h == 0 {
        return 0;
      }
      var slot, gen := SlotOf(h), GenOf(h);
      if slots == [] || slot >= len {
        return 0;
      }
      if slots[slot].generation != gen {
        return 0;
      }
      if !slots[slot].inUse {
        return 0;
      }
      return slots[slot].ptr;
    }

    // __mind_gen_free
    method GenFree(h: int) returns (out: Outcome)
      requires Valid()
      modifies this
      ensures Valid() && out == Free(old(Value()), h)
      ensures out.Returned? ==> Value() == out.t
      ensures freed == old(freed) + if Live(old(Value()), h) then [Deref(old(Value()), h)] else []
    {
      if h == 0 {
        return Returned(Value(), 0);
      }
      var slot, gen := SlotOf(h), GenOf(h);
      if slots == [] || slot >= len {
        return Returned(Value(), 0);
      }
      if slots[slot].generation != gen || !slots[slot].inUse {
        return Returned(Value(), 0);
      }
      freed := freed + [slots[slot].ptr];
      slots := slots[slot := slots[slot].(ptr := 0, inUse := false)];
      if slots[slot].generation == TWO32 - 1 {
        return Aborted;
      }
      slots := slots[slot := slots[slot].(generation := slots[slot].generation + 1)];
      return Returned(Value(), 0);
    }
  }
}
