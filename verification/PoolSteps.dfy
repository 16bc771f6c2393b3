/**
 Every step of every agent keeps the pool invariant.
 */
module PoolSteps {
  import opened Bands
  import opened Options
  import opened Pool
  import opened PoolInvariant

  // ----- frames: what a step that touches at most worker i must show

  // s' differs from s at most in worker i (none when i is out of range).
  ghost predicate OnlyWorker(s: State, s': State, i: nat) {
    && |s'.workers| == |s.workers|
    && (forall k | 0 <= k < |s.workers| && k != i :: s'.workers[k] == s.workers[k])
    && s'.gen == s.gen && s'.active == s.active && s'.stop == s.stop && s'.rounds == s.rounds
  }

  lemma WorkersFrame(c: Config, s: State, s': State, i: nat)
    requires Workers(c, s) && OnlyWorker(s, s', i) && RoundOpen(s') == RoundOpen(s)
    requires i < |s.workers| ==> WorkerOk(c, s', i)
    ensures Workers(c, s')
  {
    forall k | 0 <= k < |s'.workers| ensures WorkerOk(c, s', k) {
      assert WorkerOk(c, s, k);
    }
  }

  lemma HistoryFrame(s: State, s': State, i: nat)
    requires History(s) && OnlyWorker(s, s', i)
    requires s'.begun == s.begun && s'.ended == s.ended
    requires i < |s.workers| ==>
               && BegunNow(s'.workers[i], s.gen) == BegunNow(s.workers[i], s.gen)
               && EndedNow(s'.workers[i], s.gen) == EndedNow(s.workers[i], s.gen)
    ensures History(s')
  {
    forall k: Call ensures Due(s', k) == Due(s, k) && PastBegin(s', k) == PastBegin(s, k) && PastEnd(s', k) == PastEnd(s, k) {
    }
  }

  lemma MemoryFrame(c: Config, s: State, s': State, i: nat)
    requires Memory(c, s) && OnlyWorker(s, s', i)
    requires s'.mem == s.mem && s'.start == s.start
    requires RoundPc(Dispatcher(s')) ==> RoundPc(Dispatcher(s))
    requires Dispatcher(s').Locking? || Dispatcher(s').Filling? ==> Dispatcher(s).Locking? || Dispatcher(s).Filling?
    requires RoundPc(Dispatcher(s')) && s.rounds != [] && i < Last(s).n && i < |s.workers| ==>
               var p := Prog(c.code, Last(s), i);
               Progress(p, s'.workers[i], s.gen) == Progress(p, s.workers[i], s.gen)
    ensures Memory(c, s')
  {
  }

  // ----- workers

  lemma WorkerLockInv(c: Config, s: State, i: nat)
    requires Control(c, s) && WorkerCan(s, i) && s.workers[i].pc.AtLock?
    ensures Control(c, WorkerNext(c, s, i))
  {
    var s' := WorkerNext(c, s, i);
    CountCongruent(s.workers, s'.workers, s.gen, s.active);
    assert WorkerOk(c, s, i);
    WorkersFrame(c, s, s', i);
  }

  lemma WorkerRelockInv(c: Config, s: State, i: nat)
    requires Control(c, s) && WorkerCan(s, i) && s.workers[i].pc.AtReport?
    ensures Control(c, WorkerNext(c, s, i))
  {
    var s' := WorkerNext(c, s, i);
    CountCongruent(s.workers, s'.workers, s.gen, s.active);
    assert WorkerOk(c, s, i);
    WorkersFrame(c, s, s', i);
  }

  lemma WorkerSleepInv(c: Config, s: State, i: nat)
    requires Control(c, s) && WorkerCan(s, i) && s.workers[i].pc.AtTest? && s.workers[i].seen == s.gen
    ensures Control(c, WorkerNext(c, s, i))
  {
    var s' := WorkerNext(c, s, i);
    assert WorkerOk(c, s, i);
    CountCongruent(s.workers, s'.workers, s.gen, s.active);
    WorkersFrame(c, s, s', i);
  }

  lemma WorkerSeeInv(c: Config, s: State, i: nat)
    requires Control(c, s) && WorkerCan(s, i) && s.workers[i].pc.AtTest? && s.workers[i].seen != s.gen
    ensures Control(c, WorkerNext(c, s, i))
  {
    var s' := WorkerNext(c, s, i);
    assert WorkerOk(c, s, i);
    CountCongruent(s.workers, s'.workers, s.gen, s.active);
    WorkersFrame(c, s, s', i);
  }

  lemma WorkerExitInv(c: Config, s: State, i: nat)
    requires Control(c, s) && WorkerCan(s, i) && s.workers[i].pc.AtPick? && s.stop
    ensures Control(c, WorkerNext(c, s, i))
  {
    var s' := WorkerNext(c, s, i);
    assert WorkerOk(c, s, i);
    WorkersFrame(c, s, s', i);
  }

  lemma WorkerPickInv(c: Config, s: State, i: nat)
    requires Control(c, s) && WorkerCan(s, i) && s.workers[i].pc.AtPick? && !s.stop && i < s.active
    ensures Control(c, WorkerNext(c, s, i))
  {
    var s' := WorkerNext(c, s, i);
    assert WorkerOk(c, s, i);
    CountCongruent(s.workers, s'.workers, s.gen, s.active);
    WorkersFrame(c, s, s', i);
  }

  lemma WorkerPassInv(c: Config, s: State, i: nat)
    requires Control(c, s) && WorkerCan(s, i) && s.workers[i].pc.AtPick? && !s.stop && i >= s.active
    ensures Control(c, WorkerNext(c, s, i))
  {
    var s' := WorkerNext(c, s, i);
    assert WorkerOk(c, s, i);
    CountCongruent(s.workers, s'.workers, s.gen, s.active);
    WorkersFrame(c, s, s', i);
  }

  lemma WorkerRunInv(c: Config, s: State, i: nat)
    requires Control(c, s) && WorkerCan(s, i) && s.workers[i].pc.Running?
    ensures Control(c, WorkerNext(c, s, i))
  {
    var s' := WorkerNext(c, s, i);
    assert WorkerOk(c, s, i);
    var w, w' := s.workers[i], s'.workers[i];
    assert w'.seen == w.seen && (w'.pc.AtReport? || w'.pc.Running?);
    assert s' == s.(workers := s'.workers, mem := s'.mem, ended := s'.ended);
    CountCongruent(s.workers, s'.workers, s.gen, s.active);
    WorkersFrame(c, s, s', i);
  }

  lemma WorkerReportInv(c: Config, s: State, i: nat)
    requires Control(c, s) && WorkerCan(s, i) && s.workers[i].pc.Reporting?
    ensures Control(c, WorkerNext(c, s, i))
  {
    var s' := WorkerNext(c, s, i);
    assert WorkerOk(c, s, i);
    CountOneMore(s.workers, s.gen, s.active, i, s.workers[i].(pc := AtLock));
    WorkersFrame(c, s, s', i);
  }

  // ----- callers

  lemma CallerEnterInv(c: Config, s: State, j: nat)
    requires Control(c, s) && CallerCan(s, j) && (s.callers[j].Entering? || s.callers[j].Locking?)
    ensures Control(c, CallerNext(s, j))
  {
    WorkersFrame(c, s, CallerNext(s, j), |s.workers|);
  }

  lemma CallerRousedInv(c: Config, s: State, j: nat)
    requires Control(c, s) && CallerCan(s, j) && s.callers[j].Roused?
    ensures Control(c, CallerNext(s, j))
  {
    WorkersFrame(c, s, CallerNext(s, j), |s.workers|);
  }

  lemma CallerEndInv(c: Config, s: State, j: nat)
    requires Control(c, s) && CallerCan(s, j)
    requires s.callers[j].Leaving? || s.callers[j].Releasing?
    ensures Control(c, CallerNext(s, j))
  {
    WorkersFrame(c, s, CallerNext(s, j), |s.workers|);
  }

  lemma CallerFillInv(c: Config, s: State, j: nat)
    requires Control(c, s) && CallerCan(s, j) && s.callers[j].Filling? && s.callers[j].i < s.callers[j].r.n
    ensures Control(c, CallerNext(s, j))
  {
    WorkersFrame(c, s, CallerNext(s, j), |s.workers|);
  }

  lemma CallerPublishInv(c: Config, s: State, j: nat)
    requires Control(c, s) && CallerCan(s, j) && s.callers[j].Filling? && s.callers[j].i == s.callers[j].r.n
    ensures Control(c, CallerNext(s, j))
  {
    var s' := CallerNext(s, j);
    forall k | 0 <= k < |s'.workers| ensures WorkerOk(c, s', k) && s'.workers[k].seen < s'.gen {
      assert WorkerOk(c, s, k);
    }
    CountNone(s'.workers, s'.gen, s'.active);
  }

  lemma CallerWaitInv(c: Config, s: State, j: nat)
    requires Control(c, s) && CallerCan(s, j) && s.callers[j].Testing? && s.finished < s.callers[j].r.n
    ensures Control(c, CallerNext(s, j))
  {
    WorkersFrame(c, s, CallerNext(s, j), |s.workers|);
  }

  lemma CallerDoneInv(c: Config, s: State, j: nat)
    requires Control(c, s) && CallerCan(s, j) && s.callers[j].Testing? && s.finished >= s.callers[j].r.n
    ensures Control(c, CallerNext(s, j))
  {
    CountFull(s.workers, s.gen, s.active);
    var s' := CallerNext(s, j);
    forall k | 0 <= k < |s'.workers| ensures WorkerOk(c, s', k) {
      assert WorkerOk(c, s, k);
    }
  }

  // ----- spurious wakeups, calls, unloading, other code

  lemma WorkerSpuriousInv(c: Config, s: State, i: nat)
    requires Control(c, s) && Enabled(c, s, WorkerSpurious(i))
    ensures Control(c, Next(c, s, WorkerSpurious(i)))
  {
    var s' := Next(c, s, WorkerSpurious(i));
    CountCongruent(s.workers, s'.workers, s.gen, s.active);
    assert WorkerOk(c, s, i);
    WorkersFrame(c, s, s', i);
  }

  lemma CallerSpuriousInv(c: Config, s: State, j: nat)
    requires Control(c, s) && Enabled(c, s, CallerSpurious(j))
    ensures Control(c, Next(c, s, CallerSpurious(j)))
  {
    WorkersFrame(c, s, Next(c, s, CallerSpurious(j)), |s.workers|);
  }

  lemma BeginInv(c: Config, s: State, st: Step)
    requires Control(c, s) && Enabled(c, s, st) && st.Begin?
    ensures Control(c, Next(c, s, st))
  {
    WorkersFrame(c, s, Next(c, s, st), |s.workers|);
  }

  lemma OutsideInv(c: Config, s: State, st: Step)
    requires Control(c, s) && Enabled(c, s, st) && st.Outside?
    ensures Control(c, Next(c, s, st))
  {
    WorkersFrame(c, s, Next(c, s, st), |s.workers|);
  }

  lemma CloseStartInv(c: Config, s: State)
    requires Control(c, s) && Enabled(c, s, CloseStart)
    ensures Control(c, Next(c, s, CloseStart))
  {
    WorkersFrame(c, s, Next(c, s, CloseStart), |s.workers|);
  }

  lemma CloserInv(c: Config, s: State)
    requires Control(c, s) && CloserCan(s) && !s.closer.Poisoning?
    ensures Control(c, CloserNext(s))
  {
    WorkersFrame(c, s, CloserNext(s), |s.workers|);
  }

  lemma PoisonInv(c: Config, s: State)
    requires Control(c, s) && CloserCan(s) && s.closer.Poisoning?
    ensures Control(c, CloserNext(s))
  {
    var s' := CloserNext(s);
    forall k | 0 <= k < |s'.workers| ensures WorkerOk(c, s', k) {
      assert WorkerOk(c, s, k);
    }
  }

  lemma {:induction false} ControlStep(c: Config, s: State, st: Step)
    requires Control(c, s) && Enabled(c, s, st)
    ensures Control(c, Next(c, s, st))
  {
    match st
    case WorkerStep(i) =>
      var pc := s.workers[i].pc;
      if pc.AtTest? {
        if s.workers[i].seen == s.gen { WorkerSleepInv(c, s, i); } else { WorkerSeeInv(c, s, i); }
      }
      else if pc.AtPick? {
        if s.stop { WorkerExitInv(c, s, i); }
        else if i < s.active { WorkerPickInv(c, s, i); }
        else { WorkerPassInv(c, s, i); }
      }
      else if pc.Running? { WorkerRunInv(c, s, i); }
      else if pc.Reporting? { WorkerReportInv(c, s, i); }
      else if pc.AtLock? { WorkerLockInv(c, s, i); }
      else { WorkerRelockInv(c, s, i); }
    case CallerStep(j) =>
      var pc := s.callers[j];
      if pc.Filling? {
        if pc.i < pc.r.n { CallerFillInv(c, s, j); } else { CallerPublishInv(c, s, j); }
      }
      else if pc.Testing? {
        if s.finished < pc.r.n { CallerWaitInv(c, s, j); } else { CallerDoneInv(c, s, j); }
      }
      else if DonePc(pc) { CallerEndInv(c, s, j); }
      else if pc.Roused? { CallerRousedInv(c, s, j); }
      else { CallerEnterInv(c, s, j); }
    case CloserStep => if s.closer.Poisoning? { PoisonInv(c, s); } else { CloserInv(c, s); }
    case WorkerSpurious(i) => WorkerSpuriousInv(c, s, i);
    case CallerSpurious(j) => CallerSpuriousInv(c, s, j);
    case Begin(_, _, _, _, _) => BeginInv(c, s, st);
    case CloseStart => CloseStartInv(c, s);
    case Outside(_, _) => OutsideInv(c, s, st);
  }

  // ----- history

  lemma PickHistory(c: Config, s: State, i: nat)
    requires Control(c, s) && History(s) && WorkerCan(s, i) && s.workers[i].pc.AtPick?
    ensures History(WorkerNext(c, s, i))
  {
    hide Locks, Requests, Counting, Closure;
    assert WorkerOk(c, s, i);
    if !s.stop && i < s.active {
      TakeHistory(c, s, i);
    } else {
      PassHistory(c, s, i);
    }
  }

  lemma TakeHistory(c: Config, s: State, i: nat)
    requires Control(c, s) && History(s) && WorkerCan(s, i) && s.workers[i].pc.AtPick?
    requires WorkerOk(c, s, i) && !s.stop && i < s.active
    ensures History(WorkerNext(c, s, i))
  {
    hide Locks, Requests, Counting, Closure, Workers;
    var s' := WorkerNext(c, s, i);
    var call := Call(s.gen, i, s.fn[i], s.arg[i]);
    assert s.begun[call] == 0;
    forall k: Call
      ensures s'.begun[k] == if Due(s', k) && PastBegin(s', k) then 1 else 0
      ensures s'.ended[k] == if Due(s', k) && PastEnd(s', k) then 1 else 0
    {
      assert Due(s', k) == Due(s, k);
      if k.worker != i || k.round != s.gen {
        assert k != call;
      }
    }
  }

  lemma PassHistory(c: Config, s: State, i: nat)
    requires Control(c, s) && History(s) && WorkerCan(s, i) && s.workers[i].pc.AtPick?
    requires WorkerOk(c, s, i) && (s.stop || i >= s.active)
    ensures History(WorkerNext(c, s, i))
  {
    hide Locks, Requests, Counting, Closure, Workers;
    var s' := WorkerNext(c, s, i);
    forall k: Call
      ensures s'.begun[k] == if Due(s', k) && PastBegin(s', k) then 1 else 0
      ensures s'.ended[k] == if Due(s', k) && PastEnd(s', k) then 1 else 0
    {
      assert Due(s', k) == Due(s, k);
    }
  }

  lemma ReturnHistory(c: Config, s: State, i: nat)
    requires Control(c, s) && History(s) && WorkerCan(s, i) && s.workers[i].pc.Running?
    ensures History(WorkerNext(c, s, i))
  {
    var s' := WorkerNext(c, s, i);
    assert WorkerOk(c, s, i);
    var w := s.workers[i];
    if w.pc.k < |c.code.prog(w.pc.fn, w.pc.arg)| {
      HistoryFrame(s, s', i);
    } else {
      var call := Call(s.gen, i, w.pc.fn, w.pc.arg);
      assert s.ended[call] == 0;
      forall k: Call
        ensures s'.begun[k] == if Due(s', k) && PastBegin(s', k) then 1 else 0
        ensures s'.ended[k] == if Due(s', k) && PastEnd(s', k) then 1 else 0
      {
        assert Due(s', k) == Due(s, k);
        if k.worker != i || k.round != s.gen {
          assert k != call;
        }
      }
    }
  }

  // A new round starts only once every band of the one before has been run.
  lemma PublishHistory(c: Config, s: State, j: nat)
    requires Control(c, s) && History(s) && CallerCan(s, j) && s.callers[j].Filling?
    ensures History(CallerNext(s, j))
  {
    var s' := CallerNext(s, j);
    var pc := s.callers[j];
    if pc.i < pc.r.n {
      HistoryFrame(s, s', |s.workers|);
    } else {
      forall k: Call
        ensures s'.begun[k] == if Due(s', k) && PastBegin(s', k) then 1 else 0
        ensures s'.ended[k] == if Due(s', k) && PastEnd(s', k) then 1 else 0
      {
        if k.worker < |s.workers| {
          assert WorkerOk(c, s, k.worker);
        }
        if k.round <= |s.rounds| {
          assert Due(s', k) == Due(s, k);
        }
      }
    }
  }

  lemma PoisonHistory(c: Config, s: State)
    requires Control(c, s) && History(s) && CloserCan(s)
    ensures History(CloserNext(s))
  {
    var s' := CloserNext(s);
    if !s.closer.Poisoning? {
      HistoryFrame(s, s', |s.workers|);
    } else {
      assert s.mtx == ByCloser;
      forall k: Call
        ensures s'.begun[k] == if Due(s', k) && PastBegin(s', k) then 1 else 0
        ensures s'.ended[k] == if Due(s', k) && PastEnd(s', k) then 1 else 0
      {
        if k.worker < |s.workers| {
          assert WorkerOk(c, s, k.worker);
        }
        assert Due(s', k) == Due(s, k);
      }
    }
  }

  lemma QuietWorkerHistory(c: Config, s: State, i: nat)
    requires History(s) && WorkerCan(s, i) && WorkerOk(c, s, i)
    requires !s.workers[i].pc.AtPick? && !s.workers[i].pc.Running?
    ensures History(WorkerNext(c, s, i))
  {
    HistoryFrame(s, WorkerNext(c, s, i), i);
  }

  lemma QuietCallerHistory(s: State, j: nat)
    requires History(s) && CallerCan(s, j) && !s.callers[j].Filling?
    ensures History(CallerNext(s, j))
  {
    HistoryFrame(s, CallerNext(s, j), |s.workers|);
  }

  lemma QuietHistory(c: Config, s: State, st: Step)
    requires History(s) && Enabled(c, s, st) && !st.WorkerStep? && !st.CallerStep? && !st.CloserStep?
    ensures History(Next(c, s, st))
  {
    HistoryFrame(s, Next(c, s, st), if st.WorkerSpurious? then st.i else |s.workers|);
  }

  lemma {:induction false} HistoryStep(c: Config, s: State, st: Step)
    requires Control(c, s) && History(s) && Enabled(c, s, st)
    ensures History(Next(c, s, st))
  {
    match st
    case WorkerStep(i) =>
      assert WorkerOk(c, s, i);
      if s.workers[i].pc.AtPick? { PickHistory(c, s, i); }
      else if s.workers[i].pc.Running? { ReturnHistory(c, s, i); }
      else { QuietWorkerHistory(c, s, i); }
    case CallerStep(j) =>
      if s.callers[j].Filling? { PublishHistory(c, s, j); } else { QuietCallerHistory(s, j); }
    case CloserStep => PoisonHistory(c, s);
    case _ => QuietHistory(c, s, st);
  }

  // ----- memory

  // The store a band is about to make sees exactly what it would see running alone.
  lemma StoreSeesOwn(c: Config, s: State, r: Req, i: nat, k: nat)
    requires r.n <= |s.workers| && MemoryOf(c, s, r) && OwnerComputes(c.code, r)
    requires i < r.n && k < |Prog(c.code, r, i)| && Progress(Prog(c.code, r, i), s.workers[i], s.gen) == k
    ensures var p := Prog(c.code, r, i);
            p[k].act(s.mem) == p[k].act(Exec(p, k, s.start)) && p[k].act(s.mem).0 in Own(c.code, r, i)
  {
    var p, own, uses := Prog(c.code, r, i), Own(c.code, r, i), Uses(c.code, r, i);
    assert Confined(p, own, uses);
    var alone := Exec(p, k, s.start);
    forall a | a in own + uses ensures Same(s.mem, alone, a) {
      if a !in own {
        assert !Owned(c.code, r, r.n, a);
        ExecKeepsOthers(p, own, uses, k, s.start, a);
      }
    }
    assert Agree(s.mem, alone, own + uses);
  }

  lemma StoreMemory(c: Config, s: State, i: nat)
    requires Control(c, s) && Memory(c, s) && WorkerCan(s, i) && s.workers[i].pc.Running?
    ensures Memory(c, WorkerNext(c, s, i))
  {
    var s' := WorkerNext(c, s, i);
    assert WorkerOk(c, s, i);
    var r := Last(s);
    var p := Prog(c.code, r, i);
    var k := s.workers[i].pc.k;
    if k == |p| {
      MemoryFrame(c, s, s', i);
    } else if OwnerComputes(c.code, r) {
      StoreSeesOwn(c, s, r, i, k);
      var (x, v) := p[k].act(s.mem);
      forall l, a | 0 <= l < r.n && a in Own(c.code, r, l)
        ensures Same(s'.mem, Exec(Prog(c.code, r, l), Progress(Prog(c.code, r, l), s'.workers[l], s'.gen), s'.start), a)
      {
        if l != i {
          assert Own(c.code, r, i) !! Own(c.code, r, l);
        }
      }
      forall a | !Owned(c.code, r, r.n, a) ensures Same(s'.mem, s'.start, a) {
        assert Same(s.mem, s.start, a);
      }
    }
  }

  lemma PublishMemory(c: Config, s: State, j: nat)
    requires Control(c, s) && Memory(c, s) && CallerCan(s, j) && s.callers[j].Filling?
    ensures Memory(c, CallerNext(s, j))
  {
    var s' := CallerNext(s, j);
    if s.callers[j].i == s.callers[j].r.n {
      forall k | 0 <= k < |s'.workers| ensures s'.workers[k].seen < s'.gen {
        assert WorkerOk(c, s, k);
      }
    }
  }

  lemma QuietWorkerMemory(c: Config, s: State, i: nat)
    requires Memory(c, s) && WorkerCan(s, i) && WorkerOk(c, s, i)
    requires !s.workers[i].pc.Running? && !s.workers[i].pc.AtPick?
    ensures Memory(c, WorkerNext(c, s, i))
  {
    MemoryFrame(c, s, WorkerNext(c, s, i), i);
  }

  lemma PickMemory(c: Config, s: State, i: nat)
    requires Memory(c, s) && WorkerCan(s, i) && WorkerOk(c, s, i) && s.workers[i].pc.AtPick?
    requires s.rounds != [] ==> s.active == Last(s).n
    requires s.active <= |s.fn| && s.active <= |s.arg|
    requires s.stop ==> Dispatcher(s).Idle?
    ensures Memory(c, WorkerNext(c, s, i))
  {
    MemoryFrame(c, s, WorkerNext(c, s, i), i);
  }

  lemma WorkerMemory(c: Config, s: State, i: nat)
    requires Control(c, s) && Memory(c, s) && WorkerCan(s, i)
    ensures Memory(c, WorkerNext(c, s, i))
  {
    if s.workers[i].pc.Running? {
      StoreMemory(c, s, i);
    } else {
      assert WorkerOk(c, s, i);
      if s.workers[i].pc.AtPick? { PickMemory(c, s, i); } else { QuietWorkerMemory(c, s, i); }
    }
  }

  lemma EarlyCallerMemory(c: Config, s: State, j: nat)
    requires Memory(c, s) && CallerCan(s, j) && (s.callers[j].Entering? || s.callers[j].Locking?)
    requires InRound(s.callers[j]) <==> s.dlock == Some(j)
    ensures Memory(c, CallerNext(s, j))
  {
  }

  lemma OpenCallerMemory(c: Config, s: State, j: nat)
    requires Memory(c, s) && CallerCan(s, j) && OpenPc(s.callers[j]) && s.dlock == Some(j)
    ensures Memory(c, CallerNext(s, j))
  {
    MemoryFrame(c, s, CallerNext(s, j), |s.workers|);
  }

  lemma DoneCallerMemory(c: Config, s: State, j: nat)
    requires Memory(c, s) && CallerCan(s, j) && DonePc(s.callers[j]) && s.dlock == Some(j)
    ensures Memory(c, CallerNext(s, j))
  {
    MemoryFrame(c, s, CallerNext(s, j), |s.workers|);
  }

  lemma QuietMemory(c: Config, s: State, st: Step)
    requires Memory(c, s) && Enabled(c, s, st) && (st.WorkerSpurious? || st.CallerSpurious? || st.Begin?)
    requires st.WorkerSpurious? ==> WorkerOk(c, s, st.i)
    requires Locks(s)
    ensures Memory(c, Next(c, s, st))
  {
    MemoryFrame(c, s, Next(c, s, st), if st.WorkerSpurious? then st.i else |s.workers|);
  }

  lemma {:induction false} MemoryStep(c: Config, s: State, st: Step)
    requires Control(c, s) && Memory(c, s) && Enabled(c, s, st)
    ensures Memory(c, Next(c, s, st))
  {
    match st
    case WorkerStep(i) => WorkerMemory(c, s, i);
    case CallerStep(j) =>
      if s.callers[j].Filling? { PublishMemory(c, s, j); }
      else if OpenPc(s.callers[j]) { OpenCallerMemory(c, s, j); }
      else if DonePc(s.callers[j]) { DoneCallerMemory(c, s, j); }
      else { EarlyCallerMemory(c, s, j); }
    case CloserStep =>
    case CloseStart =>
    case Outside(_, _) =>
    case WorkerSpurious(i) =>
      assert WorkerOk(c, s, i);
      QuietMemory(c, s, st);
    case _ => QuietMemory(c, s, st);
  }

  // ----- the invariant holds in every reachable state

  lemma {:induction false} StepKeepsInv(c: Config, s: State, st: Step)
    requires Inv(c, s) && Enabled(c, s, st)
    ensures Inv(c, Next(c, s, st))
  {
    ControlStep(c, s, st);
    HistoryStep(c, s, st);
    MemoryStep(c, s, st);
  }

  lemma {:induction false} RunKeepsInv(c: Config, s: State, sts: seq<Step>, s': State)
    requires Inv(c, s) && Run(c, s, sts, s')
    ensures Inv(c, s')
    decreases |sts|
  {
    if sts != [] {
      StepKeepsInv(c, s, sts[0]);
      RunKeepsInv(c, Next(c, s, sts[0]), sts[1..], s');
    }
  }
}
