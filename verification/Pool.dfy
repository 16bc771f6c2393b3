/**
 The thread pool behind multithreaded kernels, as a step system.

 Every worker, every thread calling the dispatcher and the unload destructor is an agent
 with a program counter; a step is one agent acting once.  `mtx` is the round mutex, `dlock`
 the dispatch lock.  A thread inside `pthread_cond_wait` is `Asleep` (on `wake`) or
 `Waiting` (on `done`); being woken, by a signal or spuriously, only moves it to the point
 where it must take the mutex again.
 */
module Pool {
  import opened Bands
  import opened Options

  const POOL_MAX := 256

  datatype Config = Config(poolN: nat, callers: nat, code: Code)

  ghost predicate GoodConfig(c: Config) {
    1 <= c.poolN <= POOL_MAX
  }

  // Number of threads made for a given count of online processors.
  function PoolSize(online: int): (n: int)
    ensures 1 <= n <= 256 && (1 <= online <= 256 ==> n == online)
    ensures (online < 1 ==> n == 1) && (online > 256 ==> n == 256)
  {
    if online < 1 then 1 else if online > POOL_MAX then POOL_MAX else online
  }

  datatype WorkerPc =
    | AtLock                                // must take mtx: at the top of the loop, or woken inside cond_wait
    | AtTest                                // holds mtx, evaluating `gen == seen`
    | Asleep                                // in cond_wait(wake)
    | AtPick                                // holds mtx, `seen` just updated
    | Running(fn: int, arg: int, k: nat)    // outside the lock, k stores of the band done
    | AtReport                              // band returned, about to lock mtx
    | Reporting                             // holds mtx, about to count itself finished
    | Exited

  datatype Worker = Worker(pc: WorkerPc, seen: nat)

  datatype CallerPc =
    | Idle
    | Entering(r: Req)                      // about to lock the dispatch lock
    | Locking(r: Req)                       // holds the dispatch lock, about to lock mtx
    | Filling(r: Req, i: nat)               // holds mtx, fn/arg slots 0..i-1 written
    | Testing(r: Req)                       // holds mtx, evaluating `finished < n_bands`
    | Waiting(r: Req)                       // in cond_wait(done)
    | Roused(r: Req)                        // woken, must retake mtx
    | Leaving(r: Req)                       // holds mtx, all bands counted
    | Releasing(r: Req)                     // about to unlock the dispatch lock

  datatype CloserPc = Open | Closing | Poisoning | Joining(i: nat) | Closed

  datatype Holder = Nobody | ByWorker(i: nat) | ByCaller(j: nat) | ByCloser

  // One activation of a band.  round is the generation it belongs to.
  datatype Call = Call(round: nat, worker: nat, fn: int, arg: int)

  datatype State = State(
    mtx: Holder,
    dlock: Option<nat>,
    fn: seq<int>,
    arg: seq<int>,
    gen: nat,
    active: nat,
    finished: nat,
    stop: bool,
    workers: seq<Worker>,
    callers: seq<CallerPc>,
    closer: CloserPc,
    mem: Mem,
    // history, read by no step
    rounds: seq<Req>,                       // rounds[g - 1] is what round g was asked to run
    begun: multiset<Call>,
    ended: multiset<Call>,
    start: Mem)                             // memory when the dispatch lock was last taken

  datatype Step =
    | WorkerStep(i: nat)
    | WorkerSpurious(i: nat)
    | CallerStep(j: nat)
    | CallerSpurious(j: nat)
    | Begin(j: nat, fn: int, argbuf: int, stride: int, nBands: int)
    | CloserStep
    | CloseStart
    | Outside(a: int, v: int)               // other code writes memory between rounds

  function Init(c: Config, m: Mem): State {
    State(Nobody, None, seq(c.poolN, _ => 0), seq(c.poolN, _ => 0), 0, 0, 0, false,
          seq(c.poolN, _ => Worker(AtLock, 0)), seq(c.callers, _ => Idle), Open, m,
          [], multiset{}, multiset{}, m)
  }

  // pthread_cond_broadcast(wake)
  function WakeAll(ws: seq<Worker>): seq<Worker> {
    seq(|ws|, i requires 0 <= i < |ws| => if ws[i].pc == Asleep then ws[i].(pc := AtLock) else ws[i])
  }

  // pthread_cond_signal(done); at most one caller ever waits on done, see OneWaiter
  function SignalDone(cs: seq<CallerPc>): seq<CallerPc> {
    seq(|cs|, j requires 0 <= j < |cs| => if cs[j].Waiting? then Roused(cs[j].r) else cs[j])
  }

  // The dispatcher never hands out more bands than there are workers.
  function Clamp(c: Config, nBands: int): (n: nat)
    ensures n <= c.poolN && (0 <= nBands <= c.poolN ==> n == nBands)
    ensures (nBands < 0 ==> n == 0) && (nBands > c.poolN ==> n == c.poolN)
  {
    if nBands <= 0 then 0 else if nBands > c.poolN then c.poolN else nBands
  }

  // ----- when a step may happen

  predicate WorkerCan(s: State, i: nat) {
    i < |s.workers| &&
    match s.workers[i].pc
    case AtLock => s.mtx.Nobody?
    case AtReport => s.mtx.Nobody?
    case Asleep => false
    case Exited => false
    case _ => true
  }

  predicate CallerCan(s: State, j: nat) {
    j < |s.callers| &&
    match s.callers[j]
    case Idle => false
    case Entering(_) => s.dlock.None?
    case Locking(_) => s.mtx.Nobody?
    case Waiting(_) => false
    case Roused(_) => s.mtx.Nobody?
    case _ => true
  }

  predicate CloserCan(s: State) {
    match s.closer
    case Open => false
    case Closing => s.mtx.Nobody?
    case Poisoning => true
    case Joining(i) => i < |s.workers| ==> s.workers[i].pc.Exited?
    case Closed => false
  }

  predicate Enabled(c: Config, s: State, st: Step) {
    match st
    case WorkerStep(i) => WorkerCan(s, i)
    case WorkerSpurious(i) => i < |s.workers| && s.workers[i].pc.Asleep?
    case CallerStep(j) => CallerCan(s, j)
    case CallerSpurious(j) => j < |s.callers| && s.callers[j].Waiting?
    case Begin(j, _, _, _, _) => j < |s.callers| && s.callers[j].Idle? && s.closer.Open?
    case CloserStep => CloserCan(s)
    case CloseStart => s.closer.Open? && forall j | 0 <= j < |s.callers| :: s.callers[j].Idle?
    case Outside(_, _) => s.dlock.None?
  }

  // ----- what a step does

  // Where worker i goes from its program counter, and the generation it has then seen.
  function WorkerGoes(c: Config, s: State, i: nat, w: Worker): Worker {
    match w.pc
    case AtLock => w.(pc := AtTest)
    case AtTest => if s.gen == w.seen then w.(pc := Asleep) else Worker(AtPick, s.gen)
    case AtPick =>
      if s.stop then w.(pc := Exited)
      else if InRange(s, i) then w.(pc := Running(s.fn[i], s.arg[i], 0))
      else w.(pc := AtLock)
    case Running(f, a, k) =>
      if k < |c.code.prog(f, a)| then w.(pc := Running(f, a, k + 1)) else w.(pc := AtReport)
    case AtReport => w.(pc := Reporting)
    case Reporting => w.(pc := AtLock)
    case _ => w
  }

  predicate InRange(s: State, i: nat) {
    i < s.active && i < |s.fn| && i < |s.arg|
  }

  // What the same step does to everything else.
  function WorkerDoes(c: Config, s: State, i: nat, w: Worker): State {
    match w.pc
    case AtLock => s.(mtx := ByWorker(i))
    case AtTest => if s.gen == w.seen then s.(mtx := Nobody) else s
    case AtPick =>
      if !s.stop && InRange(s, i) then
        s.(mtx := Nobody, begun := s.begun + multiset{Call(w.seen, i, s.fn[i], s.arg[i])})
      else s.(mtx := Nobody)
    case Running(f, a, k) =>
      var p := c.code.prog(f, a);
      if k < |p| then s.(mem := Do(p[k], s.mem)) else s.(ended := s.ended + multiset{Call(w.seen, i, f, a)})
    case AtReport => s.(mtx := ByWorker(i))
    case Reporting => s.(mtx := Nobody, finished := s.finished + 1, callers := SignalDone(s.callers))
    case _ => s
  }

  function WorkerNext(c: Config, s: State, i: nat): State
    requires WorkerCan(s, i)
  {
    var w := s.workers[i];
    WorkerDoes(c, s, i, w).(workers := s.workers[i := WorkerGoes(c, s, i, w)])
  }

  // Where a caller goes from its program counter.
  function CallerGoes(s: State, pc: CallerPc): CallerPc {
    match pc
    case Entering(r) => Locking(r)
    case Locking(r) => Filling(r, 0)
    case Filling(r, i) => if Unfilled(s, r, i) then Filling(r, i + 1) else Testing(r)
    case Testing(r) => if s.finished < r.n then Waiting(r) else Leaving(r)
    case Roused(r) => Testing(r)
    case Leaving(r) => Releasing(r)
    case Releasing(r) => Idle
    case _ => pc
  }

  predicate Unfilled(s: State, r: Req, i: nat) {
    i < r.n && i < |s.fn| && i < |s.arg|
  }

  // What the same step does to everything else.
  function CallerDoes(s: State, j: nat, pc: CallerPc): State {
    match pc
    case Entering(_) => s.(dlock := Some(j), start := s.mem)
    case Locking(_) => s.(mtx := ByCaller(j))
    case Filling(r, i) =>
      if Unfilled(s, r, i) then s.(fn := s.fn[i := r.fn], arg := s.arg[i := Arg(r, i)]) else Publish(s, r)
    case Testing(r) => if s.finished < r.n then s.(mtx := Nobody) else s
    case Roused(_) => s.(mtx := ByCaller(j))
    case Leaving(_) => s.(mtx := Nobody)
    case Releasing(_) => s.(dlock := None)
    case _ => s
  }

  function Publish(s: State, r: Req): State {
    s.(active := r.n, finished := 0, gen := s.gen + 1, workers := WakeAll(s.workers), rounds := s.rounds + [r])
  }

  function CallerNext(s: State, j: nat): State
    requires CallerCan(s, j)
  {
    CallerDoes(s, j, s.callers[j]).(callers := s.callers[j := CallerGoes(s, s.callers[j])])
  }

  function CloserNext(s: State): State
    requires CloserCan(s)
  {
    match s.closer
    case Closing => s.(closer := Poisoning, mtx := ByCloser)
    case Poisoning =>
      s.(closer := Joining(0), mtx := Nobody, stop := true, gen := s.gen + 1, workers := WakeAll(s.workers))
    case Joining(i) => if i < |s.workers| then s.(closer := Joining(i + 1)) else s.(closer := Closed)
  }

  function Next(c: Config, s: State, st: Step): State
    requires Enabled(c, s, st)
  {
    match st
    case WorkerStep(i) => WorkerNext(c, s, i)
    case WorkerSpurious(i) => s.(workers := s.workers[i := s.workers[i].(pc := AtLock)])
    case CallerStep(j) => CallerNext(s, j)
    case CallerSpurious(j) => s.(callers := s.callers[j := Roused(s.callers[j].r)])
    case Begin(j, f, a, d, nBands) =>
      if nBands <= 0 then s else s.(callers := s.callers[j := Entering(Req(f, a, d, Clamp(c, nBands)))])
    case CloserStep => CloserNext(s)
    case CloseStart => s.(closer := Closing)
    case Outside(a, v) => s.(mem := s.mem[a := v])
  }

  // sts is a schedule that can be followed from s and ends in s'.
  predicate Run(c: Config, s: State, sts: seq<Step>, s': State)
    decreases |sts|
  {
    if sts == [] then s' == s
    else Enabled(c, s, sts[0]) && Run(c, Next(c, s, sts[0]), sts[1..], s')
  }
}
