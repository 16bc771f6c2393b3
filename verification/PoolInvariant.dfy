/**
 What every step of the pool keeps, and what that says about finished rounds.
 */
module PoolInvariant {
  import opened Bands
  import opened Options
  import opened Pool

  // ----- vocabulary

  predicate CallerHolds(pc: CallerPc) { pc.Filling? || pc.Testing? || pc.Leaving? }

  predicate WorkerHolds(pc: WorkerPc) { pc.AtTest? || pc.AtPick? || pc.Reporting? }

  predicate InRound(pc: CallerPc) { !pc.Idle? && !pc.Entering? }

  // The caller has published a round and has not yet seen it complete.
  predicate OpenPc(pc: CallerPc) { pc.Testing? || pc.Waiting? || pc.Roused? }

  predicate DonePc(pc: CallerPc) { pc.Leaving? || pc.Releasing? }

  predicate RoundPc(pc: CallerPc) { OpenPc(pc) || DonePc(pc) }

  // The pc of the thread holding the dispatch lock.
  function Dispatcher(s: State): CallerPc {
    if s.dlock.Some? && s.dlock.value < |s.callers| then s.callers[s.dlock.value] else Idle
  }

  predicate RoundOpen(s: State) { OpenPc(Dispatcher(s)) }

  // Between bands: the worker carries no function and no argument.
  predicate Parked(pc: WorkerPc) { pc.AtLock? || pc.AtTest? || pc.Asleep? || pc.Exited? }

  predicate Reported(w: Worker, gen: nat) { w.seen == gen && Parked(w.pc) }

  predicate BegunNow(w: Worker, gen: nat) { w.seen == gen && !w.pc.AtPick? }

  predicate EndedNow(w: Worker, gen: nat) { w.seen == gen && !w.pc.AtPick? && !w.pc.Running? }

  function CountReported(ws: seq<Worker>, gen: nat, n: nat): (k: nat)
    requires n <= |ws|
    ensures k <= n
  {
    if n == 0 then 0 else CountReported(ws, gen, n - 1) + (if Reported(ws[n - 1], gen) then 1 else 0)
  }

  // Stores of the current round's band i that have happened so far.
  function Progress(p: seq<Instr>, w: Worker, gen: nat): (k: nat)
    ensures k <= |p|
  {
    if !BegunNow(w, gen) then 0
    else if w.pc.Running? && w.pc.k <= |p| then w.pc.k
    else |p|
  }

  function Last(s: State): Req
    requires s.rounds != []
  {
    s.rounds[|s.rounds| - 1]
  }

  // ----- the invariant

  ghost predicate Shape(c: Config, s: State) {
    && GoodConfig(c)
    && |s.workers| == |s.fn| == |s.arg| == c.poolN
    && |s.callers| == c.callers
    && s.active <= c.poolN
  }

  ghost predicate Locks(s: State) {
    && (forall i | 0 <= i < |s.workers| :: WorkerHolds(s.workers[i].pc) <==> s.mtx == ByWorker(i))
    && (forall j | 0 <= j < |s.callers| :: CallerHolds(s.callers[j]) <==> s.mtx == ByCaller(j))
    && (s.mtx.ByWorker? ==> s.mtx.i < |s.workers|)
    && (s.mtx.ByCaller? ==> s.mtx.j < |s.callers|)
    && (s.closer.Poisoning? <==> s.mtx.ByCloser?)
    && (forall j | 0 <= j < |s.callers| :: InRound(s.callers[j]) <==> s.dlock == Some(j))
    && (s.dlock.Some? ==> s.dlock.value < |s.callers|)
  }

  ghost predicate Requests(c: Config, s: State)
    requires Shape(c, s)
  {
    && (forall j | 0 <= j < |s.callers| && !s.callers[j].Idle? :: 1 <= s.callers[j].r.n <= c.poolN)
    && (forall j | 0 <= j < |s.callers| && s.callers[j].Filling? ::
          && s.callers[j].i <= s.callers[j].r.n <= c.poolN
          && forall i | 0 <= i < s.callers[j].i ::
               s.fn[i] == s.callers[j].r.fn && s.arg[i] == Arg(s.callers[j].r, i))
  }

  ghost predicate Rounds(c: Config, s: State)
    requires Shape(c, s)
  {
    && (forall g | 0 <= g < |s.rounds| :: 1 <= s.rounds[g].n <= c.poolN)
    && s.gen == |s.rounds| + (if s.stop then 1 else 0)
    && s.active == (if s.rounds == [] then 0 else Last(s).n)
    && (RoundPc(Dispatcher(s)) ==> s.rounds != [] && Last(s) == Dispatcher(s).r)
    && (RoundOpen(s) ==> forall i | 0 <= i < s.active :: s.fn[i] == Last(s).fn && s.arg[i] == Arg(Last(s), i))
  }

  ghost predicate WorkerOk(c: Config, s: State, i: nat)
    requires i < |s.workers|
  {
    var w := s.workers[i];
    && w.seen <= s.gen
    && (w.pc.Asleep? || w.pc.AtPick? ==> w.seen == s.gen)
    && (w.pc.Running? || w.pc.AtReport? || w.pc.Reporting? ==>
          w.seen == s.gen && i < s.active && RoundOpen(s) && s.rounds != [])
    && (w.pc.Running? && s.rounds != [] ==>
          w.pc.fn == Last(s).fn && w.pc.arg == Arg(Last(s), i) && w.pc.k <= |Prog(c.code, Last(s), i)|)
    && (!RoundOpen(s) && !s.stop && i < s.active ==> Reported(w, s.gen))
    && (w.pc.Exited? ==> s.stop && w.seen == s.gen)
    && (s.stop && w.seen == s.gen ==> w.pc.AtPick? || w.pc.Exited?)
  }

  ghost predicate Workers(c: Config, s: State) {
    forall i | 0 <= i < |s.workers| :: WorkerOk(c, s, i)
  }

  ghost predicate Counting(s: State)
    requires s.active <= |s.workers|
  {
    && (!s.stop ==> s.finished == CountReported(s.workers, s.gen, s.active))
    && (Dispatcher(s).Waiting? ==> s.finished < s.active)
  }

  ghost predicate Closure(s: State) {
    && (s.stop <==> s.closer.Joining? || s.closer.Closed?)
    && (!s.closer.Open? ==> forall j | 0 <= j < |s.callers| :: s.callers[j].Idle?)
    && (s.closer.Joining? ==>
          s.closer.i <= |s.workers| && forall i | 0 <= i < s.closer.i :: s.workers[i].pc.Exited?)
    && (s.closer.Closed? ==> forall i | 0 <= i < |s.workers| :: s.workers[i].pc.Exited?)
  }

  // k is a band activation that its round asked for.
  ghost predicate Due(s: State, k: Call) {
    && 1 <= k.round <= |s.rounds|
    && var r := s.rounds[k.round - 1];
       k.worker < r.n && k.fn == r.fn && k.arg == Arg(r, k.worker)
  }

  ghost predicate PastBegin(s: State, k: Call) {
    k.round < |s.rounds| || s.stop || (k.worker < |s.workers| && BegunNow(s.workers[k.worker], s.gen))
  }

  ghost predicate PastEnd(s: State, k: Call) {
    k.round < |s.rounds| || s.stop || (k.worker < |s.workers| && EndedNow(s.workers[k.worker], s.gen))
  }

  ghost predicate History(s: State) {
    && (forall k: Call :: s.begun[k] == if Due(s, k) && PastBegin(s, k) then 1 else 0)
    && (forall k: Call :: s.ended[k] == if Due(s, k) && PastEnd(s, k) then 1 else 0)
  }

  // While a round of owner-computes bands is being run, each owned cell holds what its band
  // has computed so far from the memory the dispatcher started with; no other cell has changed.
  ghost predicate MemoryOf(c: Config, s: State, r: Req)
    requires r.n <= |s.workers|
  {
    && (forall i, a | 0 <= i < r.n && a in Own(c.code, r, i) ::
          Same(s.mem, Exec(Prog(c.code, r, i), Progress(Prog(c.code, r, i), s.workers[i], s.gen), s.start), a))
    && (forall a | !Owned(c.code, r, r.n, a) :: Same(s.mem, s.start, a))
  }

  ghost predicate Memory(c: Config, s: State) {
    && (Dispatcher(s).Locking? || Dispatcher(s).Filling? ==> s.mem == s.start)
    && (RoundPc(Dispatcher(s)) && s.rounds != [] && Last(s).n <= |s.workers| && OwnerComputes(c.code, Last(s)) ==>
          MemoryOf(c, s, Last(s)))
  }

  // Everything but the history and the contents of memory.
  ghost predicate Control(c: Config, s: State) {
    && Shape(c, s)
    && Locks(s)
    && Requests(c, s)
    && Rounds(c, s)
    && Workers(c, s)
    && Counting(s)
    && Closure(s)
  }

  ghost predicate Inv(c: Config, s: State) {
    Control(c, s) && History(s) && Memory(c, s)
  }

  // ----- counting

  lemma {:induction false} CountCongruent(ws: seq<Worker>, ws': seq<Worker>, gen: nat, n: nat)
    requires n <= |ws| && n <= |ws'|
    requires forall i | 0 <= i < n :: Reported(ws[i], gen) == Reported(ws'[i], gen)
    ensures CountReported(ws, gen, n) == CountReported(ws', gen, n)
  {
    if n > 0 {
      CountCongruent(ws, ws', gen, n - 1);
    }
  }

  lemma {:induction false} CountOneMore(ws: seq<Worker>, gen: nat, n: nat, i: nat, w: Worker)
    requires i < n <= |ws| && !Reported(ws[i], gen) && Reported(w, gen)
    ensures CountReported(ws[i := w], gen, n) == CountReported(ws, gen, n) + 1
  {
    if i == n - 1 {
      CountCongruent(ws, ws[i := w], gen, n - 1);
    } else {
      CountOneMore(ws, gen, n - 1, i, w);
    }
  }

  lemma {:induction false} CountFull(ws: seq<Worker>, gen: nat, n: nat)
    requires n <= |ws|
    ensures CountReported(ws, gen, n) == n <==> forall i | 0 <= i < n :: Reported(ws[i], gen)
  {
    if n > 0 {
      CountFull(ws, gen, n - 1);
    }
  }

  lemma {:induction false} CountNone(ws: seq<Worker>, gen: nat, n: nat)
    requires n <= |ws| && forall i | 0 <= i < n :: !Reported(ws[i], gen)
    ensures CountReported(ws, gen, n) == 0
  {
    if n > 0 {
      CountNone(ws, gen, n - 1);
    }
  }

  lemma InitInv(c: Config, m: Mem)
    requires GoodConfig(c)
    ensures Inv(c, Init(c, m))
  {
  }
}
