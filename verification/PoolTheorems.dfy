/**
 What the pool promises its callers, over every schedule.
 */
module PoolTheorems {
  import opened Bands
  import opened Options
  import opened Pool
  import opened PoolInvariant
  import opened PoolSteps
  import opened PoolProgress

  // Round g has been published and its dispatcher has seen it complete.
  predicate RoundOver(s: State, g: nat) {
    1 <= g <= |s.rounds| && (g < |s.rounds| || !RoundOpen(s))
  }

  // In every state of every schedule no band activation happens twice or unasked; once a
  // round is over, exactly the activations it asked for have begun and ended, once each,
  // on the worker whose id is the band's number.
  lemma EachBandRunsOnce(c: Config, m: Mem, sts: seq<Step>, s: State, k: Call)
    requires GoodConfig(c) && Run(c, Init(c, m), sts, s)
    ensures s.ended[k] <= s.begun[k] <= 1
    ensures s.begun[k] == 1 ==> Due(s, k)
    ensures RoundOver(s, k.round) ==> s.begun[k] == s.ended[k] == if Due(s, k) then 1 else 0
  {
    InitInv(c, m);
    RunKeepsInv(c, Init(c, m), sts, s);
    if k.worker < |s.workers| {
      assert WorkerOk(c, s, k.worker);
    }
  }

  // A dispatcher past its wait loop leaves every worker between bands, holding neither
  // function nor argument, with each of its bands counted.
  lemma ReturnLeavesNothingRunning(c: Config, s: State, j: nat)
    requires Inv(c, s) && j < |s.callers| && DonePc(s.callers[j])
    ensures s.active == s.finished == s.callers[j].r.n
    ensures forall i | 0 <= i < |s.workers| :: Parked(s.workers[i].pc) || (s.workers[i].pc.AtPick? && i >= s.active)
    ensures forall i | 0 <= i < s.active :: Reported(s.workers[i], s.gen)
    ensures forall i | 0 <= i < s.active ::
              s.ended[Call(s.gen, i, s.callers[j].r.fn, Arg(s.callers[j].r, i))] == 1
  {
    assert Dispatcher(s) == s.callers[j];
    assert !s.stop by { assert Closure(s); }
    forall i | 0 <= i < |s.workers|
      ensures Parked(s.workers[i].pc) || (s.workers[i].pc.AtPick? && i >= s.active)
      ensures i < s.active ==> Reported(s.workers[i], s.gen)
    {
      assert WorkerOk(c, s, i);
    }
    CountFull(s.workers, s.gen, s.active);
  }

  // At most one thread ever waits on `done`, so one signal is enough.
  lemma OneWaiter(c: Config, s: State, j: nat, j': nat)
    requires Inv(c, s) && j < |s.callers| && j' < |s.callers|
    requires s.callers[j].Waiting? && s.callers[j'].Waiting?
    ensures j == j'
  {
    assert s.dlock == Some(j);
    assert s.dlock == Some(j');
  }

  // No wakeup is lost: whoever sleeps has nothing to do yet.  A sleeping worker has seen the
  // latest generation; while a dispatcher sleeps, the worker of some unreported band is
  // awake.
  lemma NoLostWakeup(c: Config, s: State)
    requires Inv(c, s)
    ensures forall i | 0 <= i < |s.workers| && s.workers[i].pc.Asleep? :: s.workers[i].seen == s.gen
    ensures forall j | 0 <= j < |s.callers| && s.callers[j].Waiting? ::
              exists i :: 0 <= i < s.active && !Reported(s.workers[i], s.gen) && !s.workers[i].pc.Asleep?
  {
    forall i | 0 <= i < |s.workers| && s.workers[i].pc.Asleep? ensures s.workers[i].seen == s.gen {
      assert WorkerOk(c, s, i);
    }
    forall j | 0 <= j < |s.callers| && s.callers[j].Waiting?
      ensures exists i :: 0 <= i < s.active && !Reported(s.workers[i], s.gen) && !s.workers[i].pc.Asleep?
    {
      assert s.dlock == Some(j);
      assert Closure(s);
      CountFull(s.workers, s.gen, s.active);
      var i :| 0 <= i < s.active && !Reported(s.workers[i], s.gen);
      assert WorkerOk(c, s, i);
    }
  }

  // However the agents are scheduled, a schedule with k spurious wakeups and no new call has
  // at most Potential + 3k steps; and once no agent can act, every call has returned, and an
  // unload that was begun has joined every worker.
  lemma EveryScheduleEnds(c: Config, s: State, sts: seq<Step>, s': State)
    requires Control(c, s) && Run(c, s, sts, s')
    requires forall st | st in sts :: Acts(st) || Spurious(st)
    ensures |sts| <= Potential(c, s) + 3 * CountSpurious(sts)
    ensures (forall st | Acts(st) :: !Enabled(c, s', st)) ==>
              && (forall j | 0 <= j < |s'.callers| :: s'.callers[j].Idle?)
              && (s'.closer.Open? || (s'.closer.Closed? && forall i | 0 <= i < |s'.workers| :: s'.workers[i].pc.Exited?))
  {
    RunsAreBounded(c, s, sts, s');
    if (exists j :: 0 <= j < |s'.callers| && !s'.callers[j].Idle?) || !(s'.closer.Open? || s'.closer.Closed?) {
      var st := SomeoneActs(c, s');
    }
  }

  // ----- a pooled dispatch is the serial loop

  // When the dispatcher is past its wait loop, memory is what the serial loop makes of the
  // memory there was when the dispatch lock was taken.
  lemma MemoryIsSerial(c: Config, s: State, j: nat)
    requires Inv(c, s) && j < |s.callers| && DonePc(s.callers[j])
    requires OwnerComputes(c.code, s.callers[j].r)
    ensures s.mem == Serial(c.code, s.callers[j].r, s.callers[j].r.n, s.start)
  {
    var r := s.callers[j].r;
    ReturnLeavesNothingRunning(c, s, j);
    SerialByOwner(c.code, r, r.n, s.start);
    var serial := Serial(c.code, r, r.n, s.start);
    forall a ensures Same(s.mem, serial, a) {
      if Owned(c.code, r, r.n, a) {
        var i :| 0 <= i < r.n && a in Own(c.code, r, i);
        assert Same(serial, Exec(Prog(c.code, r, i), |Prog(c.code, r, i)|, s.start), a);
        assert Reported(s.workers[i], s.gen);
      }
    }
    SameEverywhere(s.mem, serial);
  }

  // Caller j is inside one dispatch of r that found memory m.
  ghost predicate Within(s: State, j: nat, r: Req, m: Mem) {
    s.dlock == Some(j) && j < |s.callers| && InRound(s.callers[j]) && s.callers[j].r == r && s.start == m
  }

  lemma WorkerStepWithin(c: Config, s: State, i: nat, j: nat, r: Req, m: Mem)
    requires WorkerCan(s, i) && Within(s, j, r, m)
    ensures Within(WorkerNext(c, s, i), j, r, m)
  {
  }

  // While one caller holds the dispatch lock no other caller can act.
  lemma CallerStepWithin(s: State, i: nat, j: nat, r: Req, m: Mem)
    requires Locks(s) && CallerCan(s, i) && Within(s, j, r, m)
    ensures i == j
    ensures var s' := CallerNext(s, i); Within(s', j, r, m) || s'.callers[j].Idle?
  {
  }

  lemma WorkerKeepsIdle(c: Config, s: State, i: nat, j: nat)
    requires WorkerCan(s, i) && j < |s.callers| && s.callers[j].Idle?
    ensures var s' := WorkerNext(c, s, i); j < |s'.callers| && s'.callers[j].Idle?
  {
  }

  lemma CallerKeepsIdle(s: State, i: nat, j: nat)
    requires CallerCan(s, i) && j < |s.callers| && s.callers[j].Idle?
    ensures var s' := CallerNext(s, i); j < |s'.callers| && s'.callers[j].Idle?
  {
  }

  lemma IdleStays(c: Config, s: State, st: Step, j: nat)
    requires Enabled(c, s, st) && j < |s.callers| && s.callers[j].Idle? && !(st.Begin? && st.j == j)
    ensures var s' := Next(c, s, st); j < |s'.callers| && s'.callers[j].Idle?
  {
    match st
    case WorkerStep(i) => WorkerKeepsIdle(c, s, i, j);
    case CallerStep(i) => CallerKeepsIdle(s, i, j);
    case _ =>
  }

  lemma {:induction false} StepWithin(c: Config, s: State, st: Step, j: nat, r: Req, m: Mem)
    requires Control(c, s) && Enabled(c, s, st) && j < |s.callers|
    requires Within(s, j, r, m) || s.callers[j].Idle?
    requires !(st.Begin? && st.j == j)
    ensures var s' := Next(c, s, st); j < |s'.callers| && (Within(s', j, r, m) || s'.callers[j].Idle?)
  {
    if s.callers[j].Idle? {
      IdleStays(c, s, st, j);
    } else {
      match st
      case WorkerStep(i) => WorkerStepWithin(c, s, i, j, r, m);
      case CallerStep(i) => CallerStepWithin(s, i, j, r, m);
      case _ =>
    }
  }

  lemma {:induction false} RunWithin(c: Config, s: State, sts: seq<Step>, s': State, j: nat, r: Req, m: Mem)
    requires Control(c, s) && Run(c, s, sts, s') && j < |s.callers|
    requires Within(s, j, r, m) || s.callers[j].Idle?
    requires forall st | st in sts :: !(st.Begin? && st.j == j)
    ensures j < |s'.callers| && (Within(s', j, r, m) || s'.callers[j].Idle?)
    decreases |sts|
  {
    if sts != [] {
      assert sts[0] in sts;
      StepWithin(c, s, sts[0], j, r, m);
      ControlStep(c, s, sts[0]);
      RunWithin(c, Next(c, s, sts[0]), sts[1..], s', j, r, m);
    }
  }

  // From the moment a caller gets the dispatch lock to the moment it is about to release it,
  // whatever every worker and every other caller does in between, memory goes from what it
  // was to exactly what the serial dispatcher would have made of it.
  lemma DispatchIsSerial(c: Config, s0: State, j: nat, sts: seq<Step>, s1: State)
    requires Inv(c, s0) && j < |s0.callers| && s0.callers[j].Entering? && s0.dlock.None?
    requires Run(c, Next(c, s0, CallerStep(j)), sts, s1)
    requires forall st | st in sts :: !(st.Begin? && st.j == j)
    requires j < |s1.callers| && DonePc(s1.callers[j])
    requires OwnerComputes(c.code, s0.callers[j].r)
    ensures var r := s0.callers[j].r; s1.mem == Serial(c.code, r, r.n, s0.mem)
  {
    var s := Next(c, s0, CallerStep(j));
    StepKeepsInv(c, s0, CallerStep(j));
    RunKeepsInv(c, s, sts, s1);
    RunWithin(c, s, sts, s1, j, s0.callers[j].r, s0.mem);
    MemoryIsSerial(c, s1, j);
  }

  // ----- more bands than workers

  lemma FewerBands(code: Code, r: Req, n: nat)
    requires OwnerComputes(code, r) && n <= r.n
    ensures OwnerComputes(code, r.(n := n))
  {
    hide Confined;
    var q := r.(n := n);
    assert forall i :: Prog(code, q, i) == Prog(code, r, i) && Own(code, q, i) == Own(code, r, i) && Uses(code, q, i) == Uses(code, r, i);
  }

  // A dispatch asked for any number of bands ends in the memory of the serial dispatcher
  // exactly when the bands past the last worker would have changed nothing; so always when
  // there are no more bands than workers.
  lemma PooledIsSerialIff(c: Config, s0: State, j: nat, want: Req, sts: seq<Step>, s1: State)
    requires Inv(c, s0) && j < |s0.callers| && s0.callers[j] == Entering(want.(n := Clamp(c, want.n))) && s0.dlock.None?
    requires Run(c, Next(c, s0, CallerStep(j)), sts, s1)
    requires forall st | st in sts :: !(st.Begin? && st.j == j)
    requires j < |s1.callers| && DonePc(s1.callers[j])
    requires want.n > 0 && OwnerComputes(c.code, want)
    ensures s1.mem == Serial(c.code, want, want.n, s0.mem)
            <==> forall i | c.poolN <= i < want.n :: Idles(c.code, want, i, s0.mem)
    ensures want.n <= c.poolN ==> s1.mem == Serial(c.code, want, want.n, s0.mem)
  {
    hide Inv, OwnerComputes, Run, Serial, Idles;
    var k := Clamp(c, want.n);
    FewerBands(c.code, want, k);
    DispatchIsSerial(c, s0, j, sts, s1);
    SerialOfFewer(c.code, want, k, k, s0.mem);
    PrefixIsWhole(c.code, want, k, s0.mem);
  }
}
