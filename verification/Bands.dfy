/**
 Shared memory, the bands a dispatch round runs on it, and the serial dispatcher.

 A band is the program that `worker(argbuf + i * struct_bytes)` executes.  It is modelled
 as a list of atomic stores; each store's target and value are arbitrary functions of the
 memory at the moment it executes, so loads are arbitrary too.
 */
module Bands {

  type Mem = map<int, int>

  // One atomic store: which cell it writes and with what, given the memory it sees.
  datatype Instr = Instr(act: Mem -> (int, int))

  // What the worker functions do, and the cells each activation owns and reads.
  datatype Code = Code(
    prog: (int, int) -> seq<Instr>,
    own: (int, int) -> set<int>,
    uses: (int, int) -> set<int>)

  // One dispatch request: worker function, argument buffer, struct size, band count.
  datatype Req = Req(fn: int, argbuf: int, stride: int, n: nat)

  function Arg(r: Req, i: int): int {
    r.argbuf + i * r.stride
  }

  function Prog(code: Code, r: Req, i: int): seq<Instr> {
    code.prog(r.fn, Arg(r, i))
  }

  ghost function Own(code: Code, r: Req, i: int): set<int> {
    code.own(r.fn, Arg(r, i))
  }

  ghost function Uses(code: Code, r: Req, i: int): set<int> {
    code.uses(r.fn, Arg(r, i))
  }

  function Do(ins: Instr, m: Mem): Mem {
    var (a, v) := ins.act(m);
    m[a := v]
  }

  // Memory after the first k stores of a band running alone.
  function Exec(p: seq<Instr>, k: nat, m: Mem): Mem
    requires k <= |p|
  {
    if k == 0 then m else Do(p[k - 1], Exec(p, k - 1, m))
  }

  // Memory after bands 0..i-1 ran one after the other on the calling thread.
  function Serial(code: Code, r: Req, i: nat, m: Mem): Mem {
    if i == 0 then m
    else
      var p := Prog(code, r, i - 1);
      Exec(p, |p|, Serial(code, r, i - 1, m))
  }

  // The dispatcher built where there are no threads: every band in order, on the caller.
  method DispatchSerial(code: Code, fn: int, argbuf: int, stride: int, nBands: int, m: Mem) returns (m': Mem)
    ensures nBands <= 0 ==> m' == m
    ensures nBands > 0 ==> m' == Serial(code, Req(fn, argbuf, stride, nBands), nBands, m)
  {
    m' := m;
    if nBands <= 0 {
      return;
    }
    ghost var r := Req(fn, argbuf, stride, nBands);
    for i := 0 to nBands
      invariant m' == Serial(code, r, i, m)
    {
      var p := code.prog(fn, argbuf + i * stride);
      for k := 0 to |p|
        invariant m' == Exec(p, k, Serial(code, r, i, m))
      {
        m' := Do(p[k], m');
      }
    }
  }

  // ----- owner-computes bands

  ghost predicate Same(m1: Mem, m2: Mem, a: int) {
    (a in m1 <==> a in m2) && (a in m1 ==> m1[a] == m2[a])
  }

  ghost predicate Agree(m1: Mem, m2: Mem, cells: set<int>) {
    forall a | a in cells :: Same(m1, m2, a)
  }

  // A band stores only to cells it owns and depends only on cells it owns or reads.
  ghost predicate Confined(p: seq<Instr>, own: set<int>, uses: set<int>) {
    && (forall k, m | 0 <= k < |p| :: p[k].act(m).0 in own)
    && (forall k, m1, m2 | 0 <= k < |p| && Agree(m1, m2, own + uses) :: p[k].act(m1) == p[k].act(m2))
  }

  // Bands own disjoint cells and read no cell another band owns.
  ghost predicate OwnerComputes(code: Code, r: Req) {
    && (forall i | 0 <= i < r.n :: Confined(Prog(code, r, i), Own(code, r, i), Uses(code, r, i)))
    && (forall i, j | 0 <= i < r.n && 0 <= j < r.n && i != j ::
          Own(code, r, i) !! Own(code, r, j) && Uses(code, r, i) !! Own(code, r, j))
  }

  ghost predicate Owned(code: Code, r: Req, n: nat, a: int) {
    exists j :: 0 <= j < n && a in Own(code, r, j)
  }

  lemma {:induction false} ExecKeepsOthers(p: seq<Instr>, own: set<int>, uses: set<int>, k: nat, m: Mem, a: int)
    requires Confined(p, own, uses) && k <= |p| && a !in own
    ensures Same(Exec(p, k, m), m, a)
  {
    if k > 0 {
      ExecKeepsOthers(p, own, uses, k - 1, m, a);
      var m1 := Exec(p, k - 1, m);
      assert p[k - 1].act(m1).0 in own;
    }
  }

  // A confined band computes the same thing from memories that agree on what it can see.
  lemma {:induction false} ExecAgrees(p: seq<Instr>, own: set<int>, uses: set<int>, k: nat, m1: Mem, m2: Mem)
    requires Confined(p, own, uses) && k <= |p| && Agree(m1, m2, own + uses)
    ensures Agree(Exec(p, k, m1), Exec(p, k, m2), own + uses)
  {
    if k > 0 {
      ExecAgrees(p, own, uses, k - 1, m1, m2);
      var x1, x2 := Exec(p, k - 1, m1), Exec(p, k - 1, m2);
      assert p[k - 1].act(x1) == p[k - 1].act(x2);
    }
  }

  // The serial loop leaves in each owned cell what its band computes alone from the start
  // memory, and leaves every other cell as it was.
  lemma {:induction false} SerialByOwner(code: Code, r: Req, n: nat, m: Mem)
    requires OwnerComputes(code, r) && n <= r.n
    ensures forall i, a | 0 <= i < n && a in Own(code, r, i) ::
              Same(Serial(code, r, n, m), Exec(Prog(code, r, i), |Prog(code, r, i)|, m), a)
    ensures forall a | !Owned(code, r, n, a) :: Same(Serial(code, r, n, m), m, a)
  {
    if n > 0 {
      SerialByOwner(code, r, n - 1, m);
      var i := n - 1;
      var p, own, uses := Prog(code, r, i), Own(code, r, i), Uses(code, r, i);
      var m1 := Serial(code, r, i, m);
      assert Agree(m1, m, own + uses) by {
        forall a | a in own + uses ensures Same(m1, m, a) {
          assert !Owned(code, r, i, a);
        }
      }
      ExecAgrees(p, own, uses, |p|, m1, m);
      forall a | a !in own ensures Same(Serial(code, r, n, m), m1, a) {
        ExecKeepsOthers(p, own, uses, |p|, m1, a);
      }
      forall a | !Owned(code, r, n, a) ensures Same(Serial(code, r, n, m), m, a) {
        assert a !in own;
        assert !Owned(code, r, i, a);
      }
    }
  }

  // Two memories that agree cell by cell are equal.
  lemma SameEverywhere(m1: Mem, m2: Mem)
    requires forall a :: Same(m1, m2, a)
    ensures m1 == m2
  {
    forall a ensures a in m1 <==> a in m2 {
      assert Same(m1, m2, a);
    }
    forall a | a in m1 ensures m1[a] == m2[a] {
      assert Same(m1, m2, a);
    }
    assert m1.Keys == m2.Keys;
  }

  // ----- running only some of the bands

  // Band i would leave every cell it owns as it is.
  ghost predicate Idles(code: Code, r: Req, i: nat, m: Mem) {
    forall a | a in Own(code, r, i) :: Same(Exec(Prog(code, r, i), |Prog(code, r, i)|, m), m, a)
  }

  // Stopping the loop after k bands makes no difference exactly when the bands left out
  // would have stored what is there already.
  lemma PrefixIsWhole(code: Code, r: Req, k: nat, m: Mem)
    requires OwnerComputes(code, r) && k <= r.n
    ensures Serial(code, r, k, m) == Serial(code, r, r.n, m) <==> forall i | k <= i < r.n :: Idles(code, r, i, m)
  {
    hide Serial, Exec, Confined;
    SerialByOwner(code, r, k, m);
    SerialByOwner(code, r, r.n, m);
    var some, all := Serial(code, r, k, m), Serial(code, r, r.n, m);
    if some == all {
      forall i | k <= i < r.n ensures Idles(code, r, i, m) {
        forall a | a in Own(code, r, i) ensures Same(Exec(Prog(code, r, i), |Prog(code, r, i)|, m), m, a) {
          NotOwnedBefore(code, r, i, k, a);
          assert Same(some, m, a);
        }
      }
    }
    if forall i | k <= i < r.n :: Idles(code, r, i, m) {
      forall a ensures Same(some, all, a) {
        SameCell(code, r, k, m, a);
      }
      SameEverywhere(some, all);
    }
  }

  lemma NotOwnedBefore(code: Code, r: Req, i: nat, k: nat, a: int)
    requires OwnerComputes(code, r) && k <= i < r.n && a in Own(code, r, i)
    ensures !Owned(code, r, k, a)
  {
    hide Confined;
  }

  lemma SameCell(code: Code, r: Req, k: nat, m: Mem, a: int)
    requires OwnerComputes(code, r) && k <= r.n && forall i | k <= i < r.n :: Idles(code, r, i, m)
    ensures Same(Serial(code, r, k, m), Serial(code, r, r.n, m), a)
  {
    hide Serial, Exec, Confined;
    SerialByOwner(code, r, k, m);
    SerialByOwner(code, r, r.n, m);
    if Owned(code, r, r.n, a) {
      var i :| 0 <= i < r.n && a in Own(code, r, i);
      if i >= k {
        NotOwnedBefore(code, r, i, k, a);
        assert Idles(code, r, i, m);
      }
    } else {
      assert !Owned(code, r, k, a);
    }
  }

  // How many bands were asked for does not show in the ones that run.
  lemma {:induction false} SerialOfFewer(code: Code, r: Req, n: nat, k: nat, m: Mem)
    ensures Serial(code, r.(n := n), k, m) == Serial(code, r, k, m)
  {
    if k > 0 {
      SerialOfFewer(code, r, n, k - 1, m);
    }
  }
}
