/**
 Region blocks: a bounded stack of frames of tracked allocations, freed on exit.
 */
module Region {
  import opened Options

  const STACK_DEPTH := 64
  const FRAME_INIT_CAP := 8

  // The open frames, outermost first, and every pointer freed so far, in order.
  datatype Regions = Regions(open: seq<seq<int>>, freed: seq<int>)

  datatype Op = Enter | Track(p: int) | Exit

  function Reversed(s: seq<int>): (r: seq<int>)
    ensures |r| == |s|
    ensures forall i | 0 <= i < |s| :: r[i] == s[|s| - 1 - i]
  {
    if s == [] then [] else Reversed(s[1..]) + [s[0]]
  }

  function Top(open: seq<seq<int>>): seq<int>
    requires open != []
  {
    open[|open| - 1]
  }

  function Below(open: seq<seq<int>>): seq<seq<int>>
    requires open != []
  {
    open[..|open| - 1]
  }

  // Pointers added to the innermost frame, if there is one.
  function Extend(open: seq<seq<int>>, ps: seq<int>): (r: seq<seq<int>>)
    ensures |r| == |open|
  {
    if open == [] then [] else Below(open) + [Top(open) + ps]
  }

  // The effect of one call; None is the abort on nesting overflow.
  function Do(r: Regions, op: Op): Option<Regions> {
    match op
    case Enter => if |r.open| >= STACK_DEPTH then None else Some(r.(open := r.open + [[]]))
    case Track(p) =>
      if r.open == [] || p == 0 then Some(r) else Some(r.(open := Extend(r.open, [p])))
    case Exit =>
      if r.open == [] then Some(r) else Some(Regions(Below(r.open), r.freed + Reversed(Top(r.open))))
  }

  // ----- the runtime's static stack

  datatype Frame = Frame(ptrs: seq<int>, cap: nat)

  function Contents(fs: seq<Frame>): (c: seq<seq<int>>)
    ensures |c| == |fs| && forall i | 0 <= i < |fs| :: c[i] == fs[i].ptrs
  {
    seq(|fs|, i requires 0 <= i < |fs| => fs[i].ptrs)
  }

  class Stack {
    var frames: array<Frame>
    var depth: nat
    ghost var freed: seq<int>

    ghost predicate Valid()
      reads this, frames
    {
      && frames.Length == STACK_DEPTH && depth <= STACK_DEPTH
      && forall i | 0 <= i < depth ::
           && |frames[i].ptrs| <= frames[i].cap && frames[i].cap >= FRAME_INIT_CAP
           && 0 !in frames[i].ptrs
    }

    ghost function Value(): Regions
      reads this, frames
      requires depth <= frames.Length
    {
      Regions(Contents(frames[..depth]), freed)
    }

    constructor ()
      ensures Valid() && Value() == Regions([], []) && fresh(frames)
    {
      frames := new Frame[STACK_DEPTH](_ => Frame([], 0));
      depth := 0;
      freed := [];
    }

    // __mind_region_enter
    method RegionEnter() returns (ok: bool)
      requires Valid()
      modifies this, frames
      ensures Valid() && frames == old(frames)
      ensures ok == Do(old(Value()), Enter).Some?
      ensures Value() == if ok then Do(old(Value()), Enter).value else old(Value())
    {
      if depth >= STACK_DEPTH {
        return false;
      }
      frames[depth] := Frame([], FRAME_INIT_CAP);
      depth := depth + 1;
      return true;
    }

    // __mind_region_track
    method RegionTrack(p: int) returns (r: int)
      requires Valid()
      modifies this, frames
      ensures Valid() && frames == old(frames) && r == p
      ensures Some(Value()) == Do(old(Value()), Track(p))
    {
      r := p;
      if depth == 0 || p == 0 {
        return;
      }
      var f := frames[depth - 1];
      if |f.ptrs| >= f.cap {
        f := f.(cap := f.cap * 2);
      }
      frames[depth - 1] := f.(ptrs := f.ptrs + [p]);
      assert Value().open == Extend(old(Value()).open, [p]);
    }

    // __mind_region_exit: last tracked, first freed.
    method RegionExit() returns (r: int)
      requires Valid()
      modifies this, frames
      ensures Valid() && frames == old(frames) && r == 0
      ensures Some(Value()) == Do(old(Value()), Exit)
    {
      r := 0;
      if depth == 0 {
        return;
      }
      ghost var before := Value();
      depth := depth - 1;
      var f := frames[depth];
      assert f.ptrs == Top(before.open);
      var i := |f.ptrs| - 1;
      while i >= 0
        modifies this`freed
        invariant -1 <= i < |f.ptrs|
        invariant freed == before.freed + Reversed(f.ptrs)[..|f.ptrs| - 1 - i]
      {
        if f.ptrs[i] != 0 {
          freed := freed + [f.ptrs[i]];
        }
        i := i - 1;
      }
      frames[depth] := Frame([], 0);
      assert Reversed(f.ptrs)[..|f.ptrs|] == Reversed(f.ptrs);
      assert Value().open == Below(before.open);
    }
  }

  // ----- every run

  function Flat(fs: seq<seq<int>>): multiset<int> {
    if fs == [] then multiset{} else Flat(fs[..|fs| - 1]) + multiset(fs[|fs| - 1])
  }

  // A run with the pointers it tracked inside some region.
  datatype Trail = Trail(r: Regions, tracked: multiset<int>)

  function Next(t: Trail, op: Op): Trail
    requires Do(t.r, op).Some?
  {
    Trail(Do(t.r, op).value,
          if op.Track? && op.p != 0 && t.r.open != [] then t.tracked + multiset{op.p} else t.tracked)
  }

  predicate Run(t: Trail, ops: seq<Op>, t': Trail)
    decreases |ops|
  {
    if ops == [] then t' == t else Do(t.r, ops[0]).Some? && Run(Next(t, ops[0]), ops[1..], t')
  }

  ghost predicate Conserved(t: Trail) {
    t.tracked == multiset(t.r.freed) + Flat(t.r.open) && |t.r.open| <= STACK_DEPTH
  }

  lemma FlatTop(fs: seq<seq<int>>, top: seq<int>)
    ensures Flat(fs + [top]) == Flat(fs) + multiset(top)
  {
    assert (fs + [top])[..|fs|] == fs;
  }

  lemma {:induction false} ReversedBag(s: seq<int>)
    ensures multiset(Reversed(s)) == multiset(s)
  {
    if s != [] {
      ReversedBag(s[1..]);
      assert s == [s[0]] + s[1..];
    }
  }

  lemma TrackConserves(t: Trail, p: int)
    requires Conserved(t) && t.r.open != [] && p != 0
    ensures Conserved(Next(t, Track(p)))
  {
    hide Flat;
    var top := Top(t.r.open);
    assert t.r.open == Below(t.r.open) + [top];
    FlatTop(Below(t.r.open), top);
    FlatTop(Below(t.r.open), top + [p]);
    assert multiset(top + [p]) == multiset(top) + multiset{p};
  }

  lemma ExitConserves(t: Trail)
    requires Conserved(t) && t.r.open != []
    ensures Conserved(Next(t, Exit))
  {
    hide Flat;
    var top := Top(t.r.open);
    assert t.r.open == Below(t.r.open) + [top];
    FlatTop(Below(t.r.open), top);
    ReversedBag(top);
    assert multiset(t.r.freed + Reversed(top)) == multiset(t.r.freed) + multiset(Reversed(top));
  }

  lemma StepConserves(t: Trail, op: Op)
    requires Conserved(t) && Do(t.r, op).Some?
    ensures Conserved(Next(t, op))
  {
    hide Flat;
    match op
    case Enter => FlatTop(t.r.open, []);
    case Track(p) => if t.r.open != [] && p != 0 { TrackConserves(t, p); }
    case Exit => if t.r.open != [] { ExitConserves(t); }
  }

  // In every state of every run, the non-null pointers tracked inside a region are exactly
  // those already freed plus those in open frames, counted with multiplicity; no pointer is
  // freed twice or lost, and nesting never exceeds 64.
  lemma {:induction false} RunConserves(t: Trail, ops: seq<Op>, t': Trail)
    requires Conserved(t) && Run(t, ops, t')
    ensures Conserved(t')
    decreases |ops|
  {
    if ops != [] {
      StepConserves(t, ops[0]);
      RunConserves(Next(t, ops[0]), ops[1..], t');
    }
  }

  // In particular from the empty stack.
  lemma EveryRunConserves(ops: seq<Op>, t: Trail)
    requires Run(Trail(Regions([], []), multiset{}), ops, t)
    ensures t.tracked == multiset(t.r.freed) + Flat(t.r.open) && |t.r.open| <= 64
  {
    RunConserves(Trail(Regions([], []), multiset{}), ops, t);
  }

  // ----- balanced programs

  // The body of a region: tracked allocations and nested regions, in order.
  datatype Body = End | Tracks(p: int, rest: Body) | Nested(body: Body, rest: Body)

  function Ops(b: Body): seq<Op> {
    match b
    case End => []
    case Tracks(p, rest) => [Track(p)] + Ops(rest)
    case Nested(body, rest) => [Enter] + Ops(body) + [Exit] + Ops(rest)
  }

  // How many frames the body opens at once.
  function Nesting(b: Body): nat {
    match b
    case End => 0
    case Tracks(_, rest) => Nesting(rest)
    case Nested(body, rest) => if 1 + Nesting(body) > Nesting(rest) then 1 + Nesting(body) else Nesting(rest)
  }

  // The pointers it tracks itself.
  function Own(b: Body): seq<int> {
    match b
    case End => []
    case Tracks(p, rest) => (if p == 0 then [] else [p]) + Own(rest)
    case Nested(_, rest) => Own(rest)
  }

  // The pointers its nested regions free, in order: inner regions first, and each region's
  // own pointers newest first.
  function FreedInside(b: Body): seq<int> {
    match b
    case End => []
    case Tracks(_, rest) => FreedInside(rest)
    case Nested(body, rest) => FreedInside(body) + Reversed(Own(body)) + FreedInside(rest)
  }

  function DoAll(r: Regions, ops: seq<Op>): Option<Regions>
    decreases |ops|
  {
    if ops == [] then Some(r)
    else match Do(r, ops[0]) case None => None case Some(r1) => DoAll(r1, ops[1..])
  }

  lemma {:induction false} DoAllAppend(r: Regions, a: seq<Op>, b: seq<Op>)
    ensures DoAll(r, a + b) == match DoAll(r, a) case None => None case Some(r1) => DoAll(r1, b)
    decreases |a|
  {
    if a == [] {
      assert a + b == b;
    } else {
      assert (a + b)[1..] == a[1..] + b;
      match Do(r, a[0])
      case None =>
      case Some(r1) => DoAllAppend(r1, a[1..], b);
    }
  }

  // What a body leaves behind: its own pointers in the enclosing frame, if there is one.
  function After(r: Regions, b: Body): Regions {
    Regions(Extend(r.open, Own(b)), r.freed + FreedInside(b))
  }

  // A balanced body runs to its end exactly when its nesting fits in the 64 frames; it then
  // leaves every outer frame as it was, adds its own pointers to the enclosing frame, and has
  // freed exactly its nested regions' pointers, innermost first, newest first.
  lemma {:induction false} BalancedBody(r: Regions, b: Body)
    requires |r.open| <= 64
    ensures DoAll(r, Ops(b)) == if |r.open| + Nesting(b) <= 64 then Some(After(r, b)) else None
    decreases b
  {
    match b
    case End =>
      ExtendNothing(r.open);
      assert r.freed + [] == r.freed;
    case Tracks(p, rest) => TrackThenBody(r, p, rest);
    case Nested(body, rest) => NestedThenBody(r, body, rest);
  }

  lemma ExtendNothing(open: seq<seq<int>>)
    ensures Extend(open, []) == open
  {
    if open != [] {
      assert Top(open) + [] == Top(open);
    }
  }

  lemma ExtendTwice(open: seq<seq<int>>, a: seq<int>, b: seq<int>)
    ensures Extend(Extend(open, a), b) == Extend(open, a + b)
  {
    if open != [] {
      assert Top(open) + a + b == Top(open) + (a + b);
    }
  }

  lemma ExtendFresh(open: seq<seq<int>>, a: seq<int>)
    ensures Extend(open + [[]], a) == open + [a]
  {
    assert [] + a == a;
  }

  lemma {:induction false} TrackThenBody(r: Regions, p: int, rest: Body)
    requires |r.open| <= STACK_DEPTH
    ensures var b := Tracks(p, rest);
            DoAll(r, Ops(b)) == if |r.open| + Nesting(b) <= STACK_DEPTH then Some(After(r, b)) else None
    decreases Tracks(p, rest), 0
  {
    var r1 := Do(r, Track(p)).value;
    assert Ops(Tracks(p, rest))[1..] == Ops(rest);
    BalancedBody(r1, rest);
    hide Extend;
    ExtendTwice(r.open, [p], Own(rest));
    if p == 0 {
      assert [] + Own(rest) == Own(rest);
    } else if r.open == [] {
      EmptyExtend([p] + Own(rest));
      EmptyExtend(Own(rest));
    }
  }

  lemma EmptyExtend(ps: seq<int>)
    ensures Extend([], ps) == []
  {
  }

  // Entering, running a body that fits, and leaving.
  lemma LeaveNested(r: Regions, body: Body)
    ensures Do(After(r.(open := r.open + [[]]), body), Exit)
            == Some(Regions(r.open, r.freed + FreedInside(body) + Reversed(Own(body))))
  {
    ExtendFresh(r.open, Own(body));
    var r2 := After(r.(open := r.open + [[]]), body);
    assert r2.open == r.open + [Own(body)];
    assert Below(r2.open) == r.open;
  }

  lemma {:induction false} NestedThenBody(r: Regions, body: Body, rest: Body)
    requires |r.open| <= STACK_DEPTH
    ensures var b := Nested(body, rest);
            DoAll(r, Ops(b)) == if |r.open| + Nesting(b) <= STACK_DEPTH then Some(After(r, b)) else None
    decreases Nested(body, rest), 0
  {
    hide Extend, Reversed, Own, DoAll, FreedInside, After;
    var tail := [Exit] + Ops(rest);
    assert Ops(Nested(body, rest)) == [Enter] + (Ops(body) + tail);
    StepThen(r, Enter, Ops(body) + tail);
    if |r.open| < STACK_DEPTH {
      var r1 := Do(r, Enter).value;
      DoAllAppend(r1, Ops(body), tail);
      BalancedBody(r1, body);
      if |r1.open| + Nesting(body) <= STACK_DEPTH {
        LeaveNested(r, body);
        var r3 := Regions(r.open, r.freed + FreedInside(body) + Reversed(Own(body)));
        assert |r3.open| == |r.open|;
        StepThen(After(r1, body), Exit, Ops(rest));
        BalancedBody(r3, rest);
        NestedAfter(r, body, rest);
      }
    }
  }

  lemma {:induction false} NestedAfter(r: Regions, body: Body, rest: Body)
    ensures After(Regions(r.open, r.freed + FreedInside(body) + Reversed(Own(body))), rest) == After(r, Nested(body, rest))
  {
    hide Extend, Reversed;
    var a, b, c := FreedInside(body), Reversed(Own(body)), FreedInside(rest);
    assert r.freed + a + b + c == r.freed + (a + b + c);
  }

  lemma StepThen(r: Regions, op: Op, ops: seq<Op>)
    ensures DoAll(r, [op] + ops) == match Do(r, op) case None => None case Some(r1) => DoAll(r1, ops)
  {
    assert ([op] + ops)[1..] == ops;
  }

  // One region block: nothing of it remains open, no outer frame changes, and its pointers
  // are freed after everything nested in it.
  lemma RegionBlock(r: Regions, body: Body)
    requires |r.open| + 1 + Nesting(body) <= 64
    ensures DoAll(r, [Enter] + Ops(body) + [Exit]) ==
            Some(Regions(r.open, r.freed + FreedInside(body) + Reversed(Own(body))))
  {
    hide Extend, Reversed;
    var b := Nested(body, End);
    assert Ops(b) == [Enter] + Ops(body) + [Exit];
    BalancedBody(r, b);
    NestedAfter(r, body, End);
    ExtendNothing(r.open);
    var f := r.freed + FreedInside(body) + Reversed(Own(body));
    assert f + [] == f;
  }
}
