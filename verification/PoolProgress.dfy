/**
 The pool never gets stuck and never runs for ever: a potential that every step of an agent
 lowers, that a spurious wakeup raises by at most two, and a step that can always be taken
 while a dispatch or an unload is unfinished.
 */
module PoolProgress {
  import opened Bands
  import opened Pool
  import opened PoolInvariant
  import opened PoolSteps

  function Sum(xs: seq<nat>): nat {
    if xs == [] then 0 else xs[0] + Sum(xs[1..])
  }

  lemma {:induction false} SumUpdate(xs: seq<nat>, i: nat, v: nat)
    requires i < |xs|
    ensures Sum(xs[i := v]) + xs[i] == Sum(xs) + v
  {
    var ys := xs[i := v];
    if i == 0 {
      assert ys[1..] == xs[1..];
    } else {
      assert ys[1..] == xs[1..][i - 1 := v];
      SumUpdate(xs[1..], i - 1, v);
    }
  }

  lemma {:induction false} SumMonotone(xs: seq<nat>, ys: seq<nat>)
    requires |xs| == |ys| && forall i | 0 <= i < |xs| :: xs[i] <= ys[i]
    ensures Sum(xs) <= Sum(ys)
  {
    if xs != [] {
      SumMonotone(xs[1..], ys[1..]);
    }
  }

  // ----- potentials

  function BandLength(c: Config, r: Req, i: nat): nat {
    if i < r.n then |Prog(c.code, r, i)| else 0
  }

  function BandLeft(c: Config, s: State, i: nat): nat {
    if s.stop || s.rounds == [] then 0 else BandLength(c, Last(s), i)
  }

  function WorkerPot(c: Config, s: State, i: nat): nat
    requires i < |s.workers|
  {
    var w := s.workers[i];
    var behind := w.seen != s.gen;
    match w.pc
    case AtLock => if behind then 10 + BandLeft(c, s, i) else 2
    case AtTest => if behind then 9 + BandLeft(c, s, i) else 1
    case Asleep => 0
    case AtPick => 8 + BandLeft(c, s, i)
    case Running(_, _, k) => 7 + (if k < BandLeft(c, s, i) then BandLeft(c, s, i) - k else 0)
    case AtReport => 6
    case Reporting => 5
    case Exited => 0
  }

  function WorkerPots(c: Config, s: State): seq<nat> {
    seq(|s.workers|, i requires 0 <= i < |s.workers| => WorkerPot(c, s, i))
  }

  // What publishing r can add to the workers' potentials.
  function RoundCosts(c: Config, r: Req): seq<nat> {
    seq(c.poolN, i requires 0 <= i < c.poolN => 10 + BandLength(c, r, i))
  }

  function CallerPot(c: Config, pc: CallerPc): nat {
    match pc
    case Idle => 0
    case Entering(r) => Sum(RoundCosts(c, r)) + r.n + 6
    case Locking(r) => Sum(RoundCosts(c, r)) + r.n + 5
    case Filling(r, i) => Sum(RoundCosts(c, r)) + (if i < r.n then r.n - i else 0) + 4
    case Testing(_) => 3
    case Waiting(_) => 2
    case Roused(_) => 4
    case Leaving(_) => 2
    case Releasing(_) => 1
  }

  function CallerPots(c: Config, s: State): seq<nat> {
    seq(|s.callers|, j requires 0 <= j < |s.callers| => CallerPot(c, s.callers[j]))
  }

  function Tens(n: nat): seq<nat> {
    seq(n, _ => 10)
  }

  function CloserPot(c: Config, pc: CloserPc): nat {
    match pc
    case Open => 0
    case Closing => Sum(Tens(c.poolN)) + c.poolN + 3
    case Poisoning => Sum(Tens(c.poolN)) + c.poolN + 2
    case Joining(i) => if i <= c.poolN then c.poolN - i + 1 else 1
    case Closed => 0
  }

  function Potential(c: Config, s: State): nat {
    Sum(WorkerPots(c, s)) + Sum(CallerPots(c, s)) + CloserPot(c, s.closer)
  }

  // An agent acting, as opposed to being woken for no reason, called, or interfered with.
  predicate Acts(st: Step) { st.WorkerStep? || st.CallerStep? || st.CloserStep? }

  predicate Spurious(st: Step) { st.WorkerSpurious? || st.CallerSpurious? }

  // ----- every act lowers the potential

  lemma OneWorker(c: Config, s: State, s': State, i: nat)
    requires OnlyWorker(s, s', i) && i < |s.workers|
    ensures Sum(WorkerPots(c, s')) + WorkerPot(c, s, i) == Sum(WorkerPots(c, s)) + WorkerPot(c, s', i)
  {
    assert WorkerPots(c, s') == WorkerPots(c, s)[i := WorkerPot(c, s', i)];
    SumUpdate(WorkerPots(c, s), i, WorkerPot(c, s', i));
  }

  lemma NoWorker(c: Config, s: State, s': State)
    requires OnlyWorker(s, s', |s.workers|)
    ensures Sum(WorkerPots(c, s')) == Sum(WorkerPots(c, s))
  {
    assert WorkerPots(c, s') == WorkerPots(c, s);
  }

  lemma OneCaller(c: Config, s: State, s': State, j: nat)
    requires j < |s.callers| == |s'.callers| && s'.callers == s.callers[j := s'.callers[j]]
    ensures Sum(CallerPots(c, s')) + CallerPot(c, s.callers[j]) == Sum(CallerPots(c, s)) + CallerPot(c, s'.callers[j])
  {
    assert CallerPots(c, s') == CallerPots(c, s)[j := CallerPot(c, s'.callers[j])];
    SumUpdate(CallerPots(c, s), j, CallerPot(c, s'.callers[j]));
  }

  lemma WorkerPotLower(c: Config, s: State, i: nat)
    requires Shape(c, s) && Rounds(c, s) && WorkerCan(s, i) && WorkerOk(c, s, i) && !s.workers[i].pc.Reporting?
    ensures WorkerPot(c, WorkerNext(c, s, i), i) < WorkerPot(c, s, i)
  {
    assert s.active <= |s.fn| && s.active <= |s.arg|;
  }

  lemma WorkerLowers(c: Config, s: State, i: nat)
    requires Control(c, s) && WorkerCan(s, i) && !s.workers[i].pc.Reporting?
    ensures Potential(c, WorkerNext(c, s, i)) < Potential(c, s)
  {
    var s' := WorkerNext(c, s, i);
    assert WorkerOk(c, s, i);
    OneWorker(c, s, s', i);
    assert s'.callers == s.callers && s'.closer == s.closer;
    assert CallerPots(c, s') == CallerPots(c, s);
    WorkerPotLower(c, s, i);
  }

  // Reporting may wake the dispatcher, which costs less than the report gains.
  lemma ReportLowers(c: Config, s: State, i: nat)
    requires Control(c, s) && WorkerCan(s, i) && s.workers[i].pc.Reporting?
    ensures Potential(c, WorkerNext(c, s, i)) < Potential(c, s)
  {
    var s' := WorkerNext(c, s, i);
    assert WorkerOk(c, s, i);
    OneWorker(c, s, s', i);
    var j := s.dlock.value;
    assert s'.callers == s.callers[j := s'.callers[j]];
    OneCaller(c, s, s', j);
  }

  // Up to publication.
  lemma EarlyCallerLowers(c: Config, s: State, j: nat)
    requires Shape(c, s) && CallerCan(s, j) && (s.callers[j].Entering? || s.callers[j].Locking? || s.callers[j].Filling?)
    requires s.callers[j].Filling? ==> s.callers[j].i < s.callers[j].r.n <= c.poolN
    ensures Potential(c, CallerNext(s, j)) < Potential(c, s)
  {
    var s' := CallerNext(s, j);
    NoWorker(c, s, s');
    OneCaller(c, s, s', j);
  }

  lemma OpenCallerLowers(c: Config, s: State, j: nat)
    requires Shape(c, s) && CallerCan(s, j) && OpenPc(s.callers[j])
    ensures Potential(c, CallerNext(s, j)) < Potential(c, s)
  {
    var s' := CallerNext(s, j);
    NoWorker(c, s, s');
    OneCaller(c, s, s', j);
  }

  lemma DoneCallerLowers(c: Config, s: State, j: nat)
    requires Shape(c, s) && CallerCan(s, j) && DonePc(s.callers[j])
    ensures Potential(c, CallerNext(s, j)) < Potential(c, s)
  {
    var s' := CallerNext(s, j);
    NoWorker(c, s, s');
    OneCaller(c, s, s', j);
  }

  lemma PublishLowers(c: Config, s: State, j: nat)
    requires Control(c, s) && CallerCan(s, j) && s.callers[j].Filling? && s.callers[j].i == s.callers[j].r.n
    ensures Potential(c, CallerNext(s, j)) < Potential(c, s)
  {
    var s' := CallerNext(s, j);
    var r := s.callers[j].r;
    forall i | 0 <= i < |s'.workers| ensures WorkerPots(c, s')[i] <= RoundCosts(c, r)[i] {
      assert WorkerOk(c, s, i);
      assert Last(s') == r;
    }
    SumMonotone(WorkerPots(c, s'), RoundCosts(c, r));
    OneCaller(c, s, s', j);
  }

  lemma CloserLowers(c: Config, s: State)
    requires Control(c, s) && CloserCan(s)
    ensures Potential(c, CloserNext(s)) < Potential(c, s)
  {
    var s' := CloserNext(s);
    assert CallerPots(c, s') == CallerPots(c, s);
    if s.closer.Poisoning? {
      forall i | 0 <= i < |s'.workers| ensures WorkerPots(c, s')[i] <= Tens(c.poolN)[i] {
        assert WorkerOk(c, s, i);
      }
      SumMonotone(WorkerPots(c, s'), Tens(c.poolN));
    } else {
      NoWorker(c, s, s');
    }
  }

  lemma {:induction false} ActLowers(c: Config, s: State, st: Step)
    requires Control(c, s) && Enabled(c, s, st) && Acts(st)
    ensures Potential(c, Next(c, s, st)) < Potential(c, s)
  {
    match st
    case WorkerStep(i) =>
      if s.workers[i].pc.Reporting? { ReportLowers(c, s, i); } else { WorkerLowers(c, s, i); }
    case CallerStep(j) =>
      if s.callers[j].Filling? && s.callers[j].i >= s.callers[j].r.n { PublishLowers(c, s, j); }
      else if OpenPc(s.callers[j]) { OpenCallerLowers(c, s, j); }
      else if DonePc(s.callers[j]) { DoneCallerLowers(c, s, j); }
      else { EarlyCallerLowers(c, s, j); }
    case CloserStep => CloserLowers(c, s);
  }

  lemma SpuriousRaises(c: Config, s: State, st: Step)
    requires Control(c, s) && Enabled(c, s, st) && Spurious(st)
    ensures Potential(c, Next(c, s, st)) <= Potential(c, s) + 2
  {
    var s' := Next(c, s, st);
    match st
    case WorkerSpurious(i) =>
      assert WorkerOk(c, s, i);
      OneWorker(c, s, s', i);
      assert CallerPots(c, s') == CallerPots(c, s);
    case CallerSpurious(j) =>
      NoWorker(c, s, s');
      OneCaller(c, s, s', j);
  }

  function CountSpurious(sts: seq<Step>): nat {
    if sts == [] then 0 else (if Spurious(sts[0]) then 1 else 0) + CountSpurious(sts[1..])
  }

  // From any reachable state, however the agents are scheduled, the acts that can follow
  // before a new call or unload number at most the potential, plus two for every
  // spurious wakeup on the way (three counting the wakeup itself).
  lemma {:induction false} RunsAreBounded(c: Config, s: State, sts: seq<Step>, s': State)
    requires Control(c, s) && Run(c, s, sts, s')
    requires forall st | st in sts :: Acts(st) || Spurious(st)
    ensures Control(c, s')
    ensures |sts| + Potential(c, s') <= Potential(c, s) + 3 * CountSpurious(sts)
    decreases |sts|
  {
    if sts != [] {
      var st := sts[0];
      assert st in sts;
      ControlStep(c, s, st);
      if Spurious(st) { SpuriousRaises(c, s, st); } else { ActLowers(c, s, st); }
      RunsAreBounded(c, Next(c, s, st), sts[1..], s');
    }
  }

  // ----- someone can always act

  // The holder of the mutex can.
  lemma HolderActs(c: Config, s: State) returns (st: Step)
    requires Control(c, s) && !s.mtx.Nobody?
    ensures Acts(st) && Enabled(c, s, st)
  {
    match s.mtx
    case ByWorker(i) => st := WorkerStep(i);
    case ByCaller(j) => st := CallerStep(j);
    case ByCloser => st := CloserStep;
  }

  // With the mutex free, a worker that still owes its report can.
  lemma OwingWorkerActs(c: Config, s: State, i: nat)
    requires Control(c, s) && s.mtx.Nobody? && i < |s.workers| && !Reported(s.workers[i], s.gen)
    ensures Enabled(c, s, WorkerStep(i))
  {
    assert WorkerOk(c, s, i);
  }

  lemma SomeoneActs(c: Config, s: State) returns (st: Step)
    requires Control(c, s)
    requires (exists j :: 0 <= j < |s.callers| && !s.callers[j].Idle?) || !(s.closer.Open? || s.closer.Closed?)
    ensures Acts(st) && Enabled(c, s, st)
  {
    if !s.mtx.Nobody? {
      st := HolderActs(c, s);
    } else if s.closer.Joining? {
      if s.closer.i < |s.workers| && !s.workers[s.closer.i].pc.Exited? {
        st := WorkerStep(s.closer.i);
        assert WorkerOk(c, s, s.closer.i);
      } else {
        st := CloserStep;
      }
    } else if s.closer.Closing? {
      st := CloserStep;
    } else if s.dlock.None? {
      var j :| 0 <= j < |s.callers| && !s.callers[j].Idle?;
      st := CallerStep(j);
    } else if Dispatcher(s).Waiting? {
      CountFull(s.workers, s.gen, s.active);
      assert Closure(s);
      var i :| 0 <= i < s.active && !Reported(s.workers[i], s.gen);
      OwingWorkerActs(c, s, i);
      st := WorkerStep(i);
    } else {
      st := CallerStep(s.dlock.value);
    }
  }
}
