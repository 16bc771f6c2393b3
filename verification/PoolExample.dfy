/**
 A dispatch of two bands on a pool of one worker, step by step: the second band is dropped.
 */
module PoolExample {
  import opened Bands
  import opened Options
  import opened Pool
  import opened PoolInvariant
  import opened PoolTheorems

  // Every band stores 1 in the cell its argument names.
  function Ones(): Code {
    Code((f, a) => [Instr((m: Mem) => (a, 1))], (f, a) => {a}, (f, a) => {})
  }

  function One(): Config { Config(1, 1, Ones()) }

  const WANT := Req(0, 0, 1, 2)

  lemma OnesAreOwnerComputes()
    ensures OwnerComputes(Ones(), WANT)
  {
  }

  // The second band would change cell 1.
  lemma SecondBandIsNotIdle(m: Mem)
    requires 1 !in m
    ensures !Idles(Ones(), WANT, 1, m)
  {
    var p := Prog(Ones(), WANT, 1);
    assert Exec(p, 0, m) == m;
    assert Exec(p, 1, m) == m[1 := 1];
    assert 1 in Own(Ones(), WANT, 1) && !Same(Exec(p, |p|, m), m, 1);
  }

  // However the one worker and the caller are scheduled, the pool's memory is not the serial
  // dispatcher's.
  lemma AlwaysDropped(s0: State, sts: seq<Step>, s1: State)
    requires Inv(One(), s0) && 0 < |s0.callers| && s0.callers[0] == Entering(WANT.(n := Clamp(One(), 2))) && s0.dlock.None?
    requires Run(One(), Next(One(), s0, CallerStep(0)), sts, s1)
    requires forall st | st in sts :: !(st.Begin? && st.j == 0)
    requires 0 < |s1.callers| && DonePc(s1.callers[0]) && 1 !in s0.mem
    ensures s1.mem != Serial(Ones(), WANT, 2, s0.mem)
  {
    hide Inv, Run, Serial, OwnerComputes, Idles;
    OnesAreOwnerComputes();
    SecondBandIsNotIdle(s0.mem);
    PooledIsSerialIff(One(), s0, 0, WANT, sts, s1);
  }

  // ----- one such schedule in full

  // What the next step of the caller or the worker depends on.
  datatype Spot = Spot(mtx: Holder, locked: bool, caller: CallerPc, worker: Worker, round: nat, finished: nat, mem: Mem)

  predicate Is(s: State, x: Spot) {
    && s.mtx == x.mtx && s.dlock == (if x.locked then Some(0) else None) && |s.callers| == |s.workers| == 1
    && s.callers[0] == x.caller && s.workers[0] == x.worker
    && s.gen == x.round && s.active == (if x.round == 0 then 0 else 1) && s.finished == x.finished && !s.stop
    && |s.fn| == |s.arg| == 1 && s.fn[0] == s.arg[0] == 0 && s.mem == x.mem
  }

  // The schedule so far, and where it has led.
  ghost predicate Led(sts: seq<Step>, s: State, x: Spot) { Run(One(), Init(One(), map[]), sts, s) && Is(s, x) }

  lemma {:induction false} RunMore(s: State, sts: seq<Step>, s1: State, st: Step)
    requires Run(One(), s, sts, s1) && Enabled(One(), s1, st)
    ensures Run(One(), s, sts + [st], Next(One(), s1, st))
    decreases |sts|
  {
    hide Next, Enabled;
    if sts == [] {
      assert sts + [st] == [st] && [st][1..] == [];
    } else {
      RunMore(Next(One(), s, sts[0]), sts[1..], s1, st);
      assert (sts + [st])[1..] == sts[1..] + [st];
    }
  }

  lemma CallerMoves(sts: seq<Step>, s: State, x: Spot, y: Spot) returns (s': State)
    requires Led(sts, s, x) && CallerCan(s, 0) && Is(CallerNext(s, 0), y)
    ensures Led(sts + [CallerStep(0)], s', y)
  {
    hide Is, CallerNext;
    RunMore(Init(One(), map[]), sts, s, CallerStep(0));
    s' := Next(One(), s, CallerStep(0));
  }

  lemma WorkerMoves(sts: seq<Step>, s: State, x: Spot, y: Spot) returns (s': State)
    requires Led(sts, s, x) && WorkerCan(s, 0) && Is(WorkerNext(One(), s, 0), y)
    ensures Led(sts + [WorkerStep(0)], s', y)
  {
    hide Is, WorkerNext;
    RunMore(Init(One(), map[]), sts, s, WorkerStep(0));
    s' := Next(One(), s, WorkerStep(0));
  }

  const GOT := Req(0, 0, 1, 1)

  lemma Called() returns (s: State)
    ensures Led([Begin(0, 0, 0, 1, 2)], s, Spot(Nobody, false, Entering(GOT), Worker(AtLock, 0), 0, 0, map[]))
  {
    var i, st := Init(One(), map[]), Begin(0, 0, 0, 1, 2);
    s := Next(One(), i, st);
    RunMore(i, [], i, st);
    assert [] + [st] == [st];
  }

  lemma FillsSlot(s: State, x: Spot)
    requires Is(s, x) && x.caller == Filling(GOT, 0)
    ensures CallerCan(s, 0) && Is(CallerNext(s, 0), x.(caller := Filling(GOT, 1)))
  {
    hide Arg;
    ArgZero();
    assert Unfilled(s, GOT, 0);
    assert CallerDoes(s, 0, s.callers[0]) == s.(fn := s.fn[0 := 0], arg := s.arg[0 := 0]);
    assert CallerGoes(s, s.callers[0]) == Filling(GOT, 1);
  }

  lemma ArgZero()
    ensures Arg(GOT, 0) == 0
  {
  }

  // The caller takes both locks and fills the one slot.
  lemma Filled() returns (sts: seq<Step>, s: State)
    ensures Led(sts, s, Spot(ByCaller(0), true, Filling(GOT, 1), Worker(AtLock, 0), 0, 0, map[]))
  {
    hide Run, Init;
    var w, m := Worker(AtLock, 0), map[];
    sts := [Begin(0, 0, 0, 1, 2)];
    s := Called();
    var x := Spot(Nobody, false, Entering(GOT), w, 0, 0, m);
    var y := x.(locked := true, caller := Locking(GOT));
    s := CallerMoves(sts, s, x, y);
    sts, x, y := sts + [CallerStep(0)], y, y.(mtx := ByCaller(0), caller := Filling(GOT, 0));
    s := CallerMoves(sts, s, x, y);
    sts, x, y := sts + [CallerStep(0)], y, y.(caller := Filling(GOT, 1));
    FillsSlot(s, x);
    s := CallerMoves(sts, s, x, y);
    sts := sts + [CallerStep(0)];
  }

  // It publishes the round and goes to sleep.
  lemma Published() returns (sts: seq<Step>, s: State)
    ensures Led(sts, s, Spot(Nobody, true, Waiting(GOT), Worker(AtLock, 0), 1, 0, map[]))
  {
    hide Run, Init;
    sts, s := Filled();
    var x := Spot(ByCaller(0), true, Filling(GOT, 1), Worker(AtLock, 0), 0, 0, map[]);
    var y := x.(caller := Testing(GOT), round := 1);
    s := CallerMoves(sts, s, x, y);
    sts, x, y := sts + [CallerStep(0)], y, y.(mtx := Nobody, caller := Waiting(GOT));
    s := CallerMoves(sts, s, x, y);
    sts := sts + [CallerStep(0)];
  }

  // The worker picks band 0 up, runs its one store and reports.
  lemma Worked() returns (sts: seq<Step>, s: State)
    ensures Led(sts, s, Spot(Nobody, true, Roused(GOT), Worker(AtLock, 1), 1, 1, map[0 := 1]))
  {
    hide Run, Init;
    sts, s := Published();
    var x := Spot(Nobody, true, Waiting(GOT), Worker(AtLock, 0), 1, 0, map[]);
    var y := x.(mtx := ByWorker(0), worker := Worker(AtTest, 0));
    s := WorkerMoves(sts, s, x, y);
    sts, x, y := sts + [WorkerStep(0)], y, y.(worker := Worker(AtPick, 1));
    s := WorkerMoves(sts, s, x, y);
    sts, x, y := sts + [WorkerStep(0)], y, y.(mtx := Nobody, worker := Worker(Running(0, 0, 0), 1));
    s := WorkerMoves(sts, s, x, y);
    sts, x, y := sts + [WorkerStep(0)], y, y.(worker := Worker(Running(0, 0, 1), 1), mem := map[0 := 1]);
    s := WorkerMoves(sts, s, x, y);
    sts, x, y := sts + [WorkerStep(0)], y, y.(worker := Worker(AtReport, 1));
    s := WorkerMoves(sts, s, x, y);
    sts, x, y := sts + [WorkerStep(0)], y, y.(mtx := ByWorker(0), worker := Worker(Reporting, 1));
    s := WorkerMoves(sts, s, x, y);
    sts, x, y := sts + [WorkerStep(0)], y, y.(mtx := Nobody, worker := Worker(AtLock, 1), caller := Roused(GOT), finished := 1);
    s := WorkerMoves(sts, s, x, y);
    sts := sts + [WorkerStep(0)];
  }

  // From an empty memory the dispatch of two bands returns with cell 1 unwritten, where the
  // serial dispatcher writes both.
  lemma BandIsDropped() returns (sts: seq<Step>, s: State)
    ensures Run(One(), Init(One(), map[]), sts, s) && |s.callers| == 1 && s.callers[0].Leaving?
    ensures s.mem == map[0 := 1] && Serial(Ones(), WANT, 2, map[]) == map[0 := 1, 1 := 1]
  {
    hide Run, Init, Serial;
    sts, s := Worked();
    var x := Spot(Nobody, true, Roused(GOT), Worker(AtLock, 1), 1, 1, map[0 := 1]);
    var y := x.(mtx := ByCaller(0), caller := Testing(GOT));
    s := CallerMoves(sts, s, x, y);
    sts, x, y := sts + [CallerStep(0)], y, y.(caller := Leaving(GOT));
    s := CallerMoves(sts, s, x, y);
    sts := sts + [CallerStep(0)];
    SerialWritesBoth();
  }

  lemma OneStore(i: nat, m: Mem)
    ensures var p := Prog(Ones(), WANT, i); |p| == 1 && Exec(p, 1, m) == m[i := 1]
  {
    var p := Prog(Ones(), WANT, i);
    assert Exec(p, 0, m) == m;
  }

  lemma SerialWritesBoth()
    ensures Serial(Ones(), WANT, 2, map[]) == map[0 := 1, 1 := 1]
  {
    hide Prog, Exec, Ones;
    var m: Mem := map[];
    OneStore(0, m);
    assert Serial(Ones(), WANT, 0, m) == m;
    OneStore(1, m[0 := 1]);
    assert Serial(Ones(), WANT, 1, m) == m[0 := 1];
  }

  // ----- the serial order

  // Every band stores its argument in cell 0.
  function Marking(): Code {
    Code((f, a) => [Instr((m: Mem) => (0, a))], (f, a) => {0}, (f, a) => {})
  }

  // Bands that write the same cell: the last one's value stays, so they ran in order.
  lemma LastBandWins(fn: int, argbuf: int, stride: int, n: nat, m: Mem)
    requires n > 0
    ensures var m' := Serial(Marking(), Req(fn, argbuf, stride, n), n, m);
            0 in m' && m'[0] == argbuf + (n - 1) * stride
  {
    var r := Req(fn, argbuf, stride, n);
    var p, before := Prog(Marking(), r, n - 1), Serial(Marking(), r, n - 1, m);
    assert Exec(p, 0, before) == before;
    assert Exec(p, 1, before) == before[0 := argbuf + (n - 1) * stride];
  }
}
