/**
 A call of the dispatcher, from the arguments it is given to its return.
 */
module PoolCalls {
  import opened Bands
  import opened Pool
  import opened PoolInvariant
  import opened PoolSteps
  import opened PoolTheorems

  // Caller j is past its entry checks and waits for the dispatch lock.
  ghost predicate AtEntry(s: State, j: nat, r: Req) { j < |s.callers| && s.callers[j] == Entering(r) }

  lemma WorkerKeepsEntry(c: Config, s: State, i: nat, j: nat, r: Req)
    requires WorkerCan(s, i) && AtEntry(s, j, r)
    ensures AtEntry(WorkerNext(c, s, i), j, r)
  {
  }

  lemma CallerKeepsEntry(s: State, i: nat, j: nat, r: Req)
    requires CallerCan(s, i) && i != j && AtEntry(s, j, r)
    ensures AtEntry(CallerNext(s, i), j, r)
  {
  }

  lemma {:induction false} StepKeepsEntry(c: Config, s: State, st: Step, j: nat, r: Req)
    requires Enabled(c, s, st) && AtEntry(s, j, r) && st != CallerStep(j)
    ensures AtEntry(Next(c, s, st), j, r)
  {
    match st
    case WorkerStep(i) => WorkerKeepsEntry(c, s, i, j, r);
    case CallerStep(i) => CallerKeepsEntry(s, i, j, r);
    case _ =>
  }

  // A caller that got past its entry took the dispatch lock at some step k.
  lemma {:induction false} LockTaken(c: Config, s: State, sts: seq<Step>, s1: State, j: nat, r: Req)
    returns (k: nat, m: State)
    requires Run(c, s, sts, s1) && AtEntry(s, j, r) && !AtEntry(s1, j, r)
    ensures k < |sts| && sts[k] == CallerStep(j) && Run(c, s, sts[..k], m) && AtEntry(m, j, r) && m.dlock.None?
    ensures Run(c, Next(c, m, CallerStep(j)), sts[k + 1..], s1)
    decreases |sts|
  {
    hide Next, Control;
    if sts[0] == CallerStep(j) {
      k, m := 0, s;
    } else {
      StepKeepsEntry(c, s, sts[0], j, r);
      var k0: nat;
      k0, m := LockTaken(c, Next(c, s, sts[0]), sts[1..], s1, j, r);
      k := k0 + 1;
      assert sts[..k][1..] == sts[1..][..k0] && sts[..k][0] == sts[0];
      assert sts[k + 1..] == sts[1..][k0 + 1..];
    }
  }

  // How many of the bands asked for run.
  function Granted(c: Config, nBands: int): nat { if nBands <= 0 then 0 else if nBands <= c.poolN then nBands else c.poolN }

  // A call for no bands does nothing.
  lemma EmptyCall(c: Config, s: State, j: nat, fn: int, argbuf: int, stride: int, nBands: int)
    requires Enabled(c, s, Begin(j, fn, argbuf, stride, nBands)) && nBands <= 0
    ensures Next(c, s, Begin(j, fn, argbuf, stride, nBands)) == s
  {
  }

  lemma CallEnters(c: Config, s: State, j: nat, fn: int, argbuf: int, stride: int, nBands: int)
    requires Enabled(c, s, Begin(j, fn, argbuf, stride, nBands)) && nBands > 0
    ensures AtEntry(Next(c, s, Begin(j, fn, argbuf, stride, nBands)), j, Req(fn, argbuf, stride, Granted(c, nBands)))
  {
  }

  // s0 is where the call is made, s where its dispatch lock is taken, s1 where its bands are
  // done.
  ghost predicate Dispatched(c: Config, s0: State, call: Step, sts: seq<Step>, k: nat, s: State, s1: State) {
    && call.Begin? && Enabled(c, s0, call) && k < |sts| && sts[k] == CallerStep(call.j)
    && Run(c, Next(c, s0, call), sts[..k], s) && Enabled(c, s, sts[k]) && s.dlock.None?
    && Run(c, Next(c, s, sts[k]), sts[k + 1..], s1)
    && (forall st | st in sts :: !(st.Begin? && st.j == call.j))
    && call.j < |s.callers| && s.callers[call.j].Entering? && call.j < |s1.callers| && DonePc(s1.callers[call.j])
  }

  // Every completed call is of that form.
  lemma CallDispatches(c: Config, s0: State, call: Step, sts: seq<Step>, s1: State) returns (k: nat, s: State)
    requires call.Begin? && call.nBands > 0 && Enabled(c, s0, call) && Run(c, Next(c, s0, call), sts, s1)
    requires forall st | st in sts :: !(st.Begin? && st.j == call.j)
    requires call.j < |s1.callers| && DonePc(s1.callers[call.j])
    ensures Dispatched(c, s0, call, sts, k, s, s1)
  {
    hide Run, Next;
    var r := Req(call.fn, call.argbuf, call.stride, Granted(c, call.nBands));
    CallEnters(c, s0, call.j, call.fn, call.argbuf, call.stride, call.nBands);
    k, s := LockTaken(c, Next(c, s0, call), sts, s1, call.j, r);
  }

  lemma {:induction false} EntryStays(c: Config, s: State, sts: seq<Step>, s': State, j: nat, r: Req)
    requires Run(c, s, sts, s') && AtEntry(s, j, r) && j < |s'.callers| && s'.callers[j].Entering?
    requires forall st | st in sts :: !(st.Begin? && st.j == j)
    requires Control(c, s)
    ensures AtEntry(s', j, r)
    decreases |sts|
  {
    if !AtEntry(s', j, r) {
      var k, m := LockTaken(c, s, sts, s', j, r);
      KeepsControl(c, s, sts[..k], m);
      ControlStep(c, m, CallerStep(j));
      var s2 := Next(c, m, CallerStep(j));
      assert Within(s2, j, r, m.mem);
      RunWithin(c, s2, sts[k + 1..], s', j, r, m.mem);
    }
  }

  lemma {:induction false} KeepsControl(c: Config, s: State, sts: seq<Step>, s': State)
    requires Control(c, s) && Run(c, s, sts, s')
    ensures Control(c, s')
    decreases |sts|
  {
    hide Control, Next;
    if sts != [] {
      ControlStep(c, s, sts[0]);
      KeepsControl(c, Next(c, s, sts[0]), sts[1..], s');
    }
  }

  lemma InvAtLock(c: Config, s0: State, call: Step, sts: seq<Step>, k: nat, s: State, s1: State)
    requires Inv(c, s0) && Dispatched(c, s0, call, sts, k, s, s1) && call.nBands > 0
    ensures Inv(c, s) && AtEntry(s, call.j, Req(call.fn, call.argbuf, call.stride, Granted(c, call.nBands)))
    ensures forall st | st in sts[k + 1..] :: !(st.Begin? && st.j == call.j)
  {
    hide Run, Next, Enabled;
    var s' := Next(c, s0, call);
    StepKeepsInv(c, s0, call);
    RunKeepsInv(c, s', sts[..k], s);
    CallEnters(c, s0, call.j, call.fn, call.argbuf, call.stride, call.nBands);
    assert forall st | st in sts[..k] :: st in sts;
    assert forall st | st in sts[k + 1..] :: st in sts;
    EntryStays(c, s', sts[..k], s, call.j, Req(call.fn, call.argbuf, call.stride, Granted(c, call.nBands)));
  }

  // What a call of the dispatcher does, in its own arguments: in every schedule, when its
  // bands are done, memory is what the serial dispatcher, called with the same arguments,
  // has made of the memory found at the lock after as many bands as there are workers;
  // and that is its whole result exactly when the bands past those would change nothing.
  lemma CallIsSerial(c: Config, s0: State, call: Step, sts: seq<Step>, k: nat, s: State, s1: State)
    requires Inv(c, s0) && Dispatched(c, s0, call, sts, k, s, s1) && call.nBands > 0
    requires OwnerComputes(c.code, Req(call.fn, call.argbuf, call.stride, call.nBands))
    ensures var want := Req(call.fn, call.argbuf, call.stride, call.nBands);
            && s1.mem == Serial(c.code, want, Granted(c, call.nBands), s.mem)
            && (s1.mem == Serial(c.code, want, want.n, s.mem)
                <==> forall i | c.poolN <= i < want.n :: Idles(c.code, want, i, s.mem))
  {
    hide Inv, Run, Next, Enabled, Serial, OwnerComputes, Idles;
    var want, n := Req(call.fn, call.argbuf, call.stride, call.nBands), Granted(c, call.nBands);
    InvAtLock(c, s0, call, sts, k, s, s1);
    FewerBands(c.code, want, n);
    DispatchIsSerial(c, s, call.j, sts[k + 1..], s1);
    SerialOfFewer(c.code, want, n, n, s.mem);
    PrefixIsWhole(c.code, want, n, s.mem);
  }

  // Cell by cell and call by call: band i ran once, as fn on argbuf + i * stride, on worker
  // i, and each cell it owns holds what that computes alone.
  lemma CallRunsBand(c: Config, s0: State, call: Step, sts: seq<Step>, k: nat, s: State, s1: State, i: nat, a: int)
    requires Inv(c, s0) && Dispatched(c, s0, call, sts, k, s, s1) && i < call.nBands && i < c.poolN
    requires OwnerComputes(c.code, Req(call.fn, call.argbuf, call.stride, call.nBands))
    ensures s1.ended[Call(s1.gen, i, call.fn, call.argbuf + i * call.stride)] == 1
    ensures var p := c.code.prog(call.fn, call.argbuf + i * call.stride);
            a in c.code.own(call.fn, call.argbuf + i * call.stride) ==> Same(s1.mem, Exec(p, |p|, s.mem), a)
  {
    hide Run, Next, Enabled, Serial, OwnerComputes, Exec;
    var want, n := Req(call.fn, call.argbuf, call.stride, call.nBands), Granted(c, call.nBands);
    CallIsSerial(c, s0, call, sts, k, s, s1);
    SerialByOwner(c.code, want, n, s.mem);
    assert a in Own(c.code, want, i) ==> Same(s1.mem, Exec(Prog(c.code, want, i), |Prog(c.code, want, i)|, s.mem), a);
    DoneHasEnded(c, s0, call, sts, k, s, s1, i);
  }

  lemma DoneHasEnded(c: Config, s0: State, call: Step, sts: seq<Step>, k: nat, s: State, s1: State, i: nat)
    requires Inv(c, s0) && Dispatched(c, s0, call, sts, k, s, s1) && i < call.nBands && i < c.poolN
    ensures s1.ended[Call(s1.gen, i, call.fn, call.argbuf + i * call.stride)] == 1
  {
    hide Run, Enabled, History, Memory, Control;
    var j, n := call.j, Granted(c, call.nBands);
    var r := Req(call.fn, call.argbuf, call.stride, n);
    InvAtLock(c, s0, call, sts, k, s, s1);
    StepKeepsInv(c, s, CallerStep(j));
    var s2 := Next(c, s, CallerStep(j));
    RunKeepsInv(c, s2, sts[k + 1..], s1);
    assert Within(s2, j, r, s.mem);
    RunWithin(c, s2, sts[k + 1..], s1, j, r, s.mem);
    assert s1.callers[j].r == r && Arg(r, i) == call.argbuf + i * call.stride;
    ReturnLeavesNothingRunning(c, s1, j);
  }
}
