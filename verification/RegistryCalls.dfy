/**
 * Calling registered init functions (src/plugins/sc_init.h, src/plugins/sc_init.c). The registry is seen
 * here as the sequence of its elements' functions; an element is its position. `called` are the
 * positions whose flag is set, `log` the positions whose own body has run, in order.
 */
module RegistryCalls {

  /** An init function: the dependencies it calls first, whether it gives up when one fails, its own code. */
  datatype Body = Body(deps: seq<nat>, stopOnError: bool, rc: int)

  type Program = nat -> Body

  datatype State = State(called: set<nat>, log: seq<nat>, rc: int)

  function Positions(fs: seq<nat>): set<nat> {
    set i {:trigger fs[i]} | 0 <= i < |fs|
  }

  /** The first uncalled element of function f at or after a position. */
  function FindFrom(fs: seq<nat>, called: set<nat>, f: nat, from: nat): (r: int)
    requires from <= |fs|
    ensures r == -1 || (from <= r < |fs| && fs[r] == f && r !in called)
    ensures forall i :: from <= i < (if r == -1 then |fs| else r) && fs[i] == f ==> i in called
    decreases |fs| - from
  {
    if from == |fs| then -1
    else if fs[from] == f && from !in called then from
    else FindFrom(fs, called, f, from + 1)
  }

  ghost predicate Grows(fs: seq<nat>, called: set<nat>, log: seq<nat>, s: State) {
    called <= s.called <= Positions(fs) && log <= s.log
  }

  /** sc_call_init_function */
  function Call(fs: seq<nat>, prog: Program, called: set<nat>, log: seq<nat>, f: nat): (s: State)
    requires called <= Positions(fs)
    ensures Grows(fs, called, log, s)
    decreases Positions(fs) - called, 0, 0
  {
    var i := FindFrom(fs, called, f, 0);
    if i == -1 then State(called, log, 0)
    else
      assert Positions(fs) - (called + {i}) < Positions(fs) - called by {
        assert i in Positions(fs) - called;
      }
      Invoke(fs, prog, called + {i}, log, i)
  }

  /** Running the function of element i: its dependencies in order, then its own body. */
  function Invoke(fs: seq<nat>, prog: Program, called: set<nat>, log: seq<nat>, i: nat): (s: State)
    requires called <= Positions(fs) && i < |fs|
    ensures Grows(fs, called, log, s)
    decreases Positions(fs) - called, 2, 0
  {
    var body := prog(fs[i]);
    var s := CallDeps(fs, prog, called, log, body.deps, body.stopOnError);
    if body.stopOnError && s.rc != 0 then s else State(s.called, s.log + [i], body.rc)
  }

  function CallDeps(fs: seq<nat>, prog: Program, called: set<nat>, log: seq<nat>, deps: seq<nat>,
                    stop: bool): (s: State)
    requires called <= Positions(fs)
    ensures Grows(fs, called, log, s)
    decreases Positions(fs) - called, 1, |deps|
  {
    if deps == [] then State(called, log, 0)
    else
      var s := Call(fs, prog, called, log, deps[0]);
      if stop && s.rc != 0 then s
      else
        assert Positions(fs) - s.called == Positions(fs) - called || Positions(fs) - s.called < Positions(fs) - called;
        CallDeps(fs, prog, s.called, s.log, deps[1..], stop)
  }

  /** sc_call_all_init_function, from a position on. */
  function CallAll(fs: seq<nat>, prog: Program, called: set<nat>, log: seq<nat>, from: nat): (s: State)
    requires called <= Positions(fs) && from <= |fs|
    ensures Grows(fs, called, log, s)
    decreases |fs| - from
  {
    if from == |fs| then State(called, log, 0)
    else if from in called then CallAll(fs, prog, called, log, from + 1)
    else
      var s := Invoke(fs, prog, called + {from}, log, from);
      if s.rc != 0 then s else CallAll(fs, prog, s.called, s.log, from + 1)
  }

  // ---------- At most once ----------

  function Elements(log: seq<nat>): set<nat> {
    set i | i in log
  }

  ghost predicate Distinct(log: seq<nat>) {
    forall j, k :: 0 <= j < k < |log| ==> log[j] != log[k]
  }

  /** No body has run twice, and only called elements have run. */
  ghost predicate Once(called: set<nat>, log: seq<nat>) {
    Distinct(log) && Elements(log) <= called
  }

  /** What a call adds to the log are elements it called itself. */
  ghost predicate OnlyNew(called: set<nat>, log: seq<nat>, s: State) {
    Once(s.called, s.log) && (forall i :: i in s.log && i !in log ==> i !in called)
  }

  lemma {:induction false} CallOnce(fs: seq<nat>, prog: Program, called: set<nat>, log: seq<nat>, f: nat)
    requires called <= Positions(fs) && Once(called, log)
    ensures OnlyNew(called, log, Call(fs, prog, called, log, f))
    decreases Positions(fs) - called, 0, 0
  {
    var i := FindFrom(fs, called, f, 0);
    if i != -1 {
      assert i in Positions(fs) - called;
      assert Positions(fs) - (called + {i}) < Positions(fs) - called;
      InvokeOnce(fs, prog, called + {i}, log, i);
    }
  }

  lemma {:induction false} InvokeOnce(fs: seq<nat>, prog: Program, called: set<nat>, log: seq<nat>, i: nat)
    requires called <= Positions(fs) && Once(called, log) && i in called && i !in log && i < |fs|
    ensures OnlyNew(called - {i}, log, Invoke(fs, prog, called, log, i))
    decreases Positions(fs) - called, 2, 0
  {
    var body := prog(fs[i]);
    DepsOnce(fs, prog, called, log, body.deps, body.stopOnError);
  }

  lemma {:induction false} DepsOnce(fs: seq<nat>, prog: Program, called: set<nat>, log: seq<nat>, deps: seq<nat>,
                                    stop: bool)
    requires called <= Positions(fs) && Once(called, log)
    ensures OnlyNew(called, log, CallDeps(fs, prog, called, log, deps, stop))
    decreases Positions(fs) - called, 1, |deps|
  {
    if deps != [] {
      CallOnce(fs, prog, called, log, deps[0]);
      var s := Call(fs, prog, called, log, deps[0]);
      if !(stop && s.rc != 0) {
        assert Positions(fs) - s.called == Positions(fs) - called || Positions(fs) - s.called < Positions(fs) - called;
        DepsOnce(fs, prog, s.called, s.log, deps[1..], stop);
      }
    }
  }

  /**
   * Calling all functions ends, even with cyclic dependencies and failures, and runs every body at most
   * once, whichever functions are registered (the same one several times included).
   */
  lemma {:induction false} CallAllOnce(fs: seq<nat>, prog: Program, called: set<nat>, log: seq<nat>, from: nat)
    requires called <= Positions(fs) && from <= |fs| && Once(called, log)
    ensures var s := CallAll(fs, prog, called, log, from); Once(s.called, s.log)
    decreases |fs| - from
  {
    if from < |fs| {
      if from in called {
        CallAllOnce(fs, prog, called, log, from + 1);
      } else {
        InvokeOnce(fs, prog, called + {from}, log, from);
        var s := Invoke(fs, prog, called + {from}, log, from);
        if s.rc == 0 {
          CallAllOnce(fs, prog, s.called, s.log, from + 1);
        }
      }
    }
  }

  // ---------- All succeed: everything runs, nothing stays half done ----------

  ghost predicate AllSucceed(prog: Program) {
    forall f :: prog(f).rc == 0
  }

  /** Elements that are called but have not run their own body yet. */
  ghost function InProgress(called: set<nat>, log: seq<nat>): set<nat> {
    called - Elements(log)
  }

  lemma {:induction false} CallSettles(fs: seq<nat>, prog: Program, called: set<nat>, log: seq<nat>, f: nat)
    requires called <= Positions(fs) && Once(called, log) && AllSucceed(prog)
    ensures var s := Call(fs, prog, called, log, f);
            s.rc == 0 && InProgress(s.called, s.log) == InProgress(called, log)
    decreases Positions(fs) - called, 0, 0
  {
    var i := FindFrom(fs, called, f, 0);
    if i != -1 {
      assert i in Positions(fs) - called;
      assert Positions(fs) - (called + {i}) < Positions(fs) - called;
      InvokeSettles(fs, prog, called + {i}, log, i);
      assert InProgress(called + {i}, log) - {i} == InProgress(called, log);
    }
  }

  lemma {:induction false} InvokeSettles(fs: seq<nat>, prog: Program, called: set<nat>, log: seq<nat>, i: nat)
    requires called <= Positions(fs) && Once(called, log) && AllSucceed(prog) && i in called && i !in log && i < |fs|
    ensures var s := Invoke(fs, prog, called, log, i);
            s.rc == 0 && InProgress(s.called, s.log) == InProgress(called, log) - {i}
    decreases Positions(fs) - called, 2, 0
  {
    var body := prog(fs[i]);
    var s := CallDeps(fs, prog, called, log, body.deps, body.stopOnError);
    DepsSettle(fs, prog, called, log, body.deps, body.stopOnError);
    assert Elements(s.log + [i]) == Elements(s.log) + {i};
  }

  lemma {:induction false} DepsSettle(fs: seq<nat>, prog: Program, called: set<nat>, log: seq<nat>, deps: seq<nat>,
                                      stop: bool)
    requires called <= Positions(fs) && Once(called, log) && AllSucceed(prog)
    ensures var s := CallDeps(fs, prog, called, log, deps, stop);
            s.rc == 0 && InProgress(s.called, s.log) == InProgress(called, log)
    decreases Positions(fs) - called, 1, |deps|
  {
    if deps != [] {
      CallSettles(fs, prog, called, log, deps[0]);
      CallOnce(fs, prog, called, log, deps[0]);
      var s := Call(fs, prog, called, log, deps[0]);
      assert Positions(fs) - s.called == Positions(fs) - called || Positions(fs) - s.called < Positions(fs) - called;
      DepsSettle(fs, prog, s.called, s.log, deps[1..], stop);
    }
  }

  lemma {:induction false} CallAllCovers(fs: seq<nat>, prog: Program, called: set<nat>, log: seq<nat>, from: nat)
    requires called <= Positions(fs) && from <= |fs| && Once(called, log) && AllSucceed(prog)
    requires InProgress(called, log) == {} && forall i :: 0 <= i < from ==> i in called
    ensures var s := CallAll(fs, prog, called, log, from);
            s.rc == 0 && s.called == Positions(fs) && InProgress(s.called, s.log) == {}
    decreases |fs| - from
  {
    if from == |fs| {
      assert Positions(fs) == called;
    } else if from in called {
      CallAllCovers(fs, prog, called, log, from + 1);
    } else {
      InvokeSettles(fs, prog, called + {from}, log, from);
      InvokeOnce(fs, prog, called + {from}, log, from);
      var s := Invoke(fs, prog, called + {from}, log, from);
      CallAllCovers(fs, prog, s.called, s.log, from + 1);
    }
  }

  /** When every function succeeds, every registered element runs, exactly once, whatever the dependencies. */
  lemma {:induction false} EveryElementRunsOnce(fs: seq<nat>, prog: Program)
    requires AllSucceed(prog)
    ensures var s := CallAll(fs, prog, {}, [], 0);
            s.rc == 0 && Distinct(s.log) && Elements(s.log) == Positions(fs)
  {
    CallAllCovers(fs, prog, {}, [], 0);
    CallAllOnce(fs, prog, {}, [], 0);
    var s := CallAll(fs, prog, {}, [], 0);
    assert forall i :: i in s.called && i !in Elements(s.log) ==> i in InProgress(s.called, s.log);
  }

  // ---------- Dependencies first ----------

  ghost predicate Ran(fs: seq<nat>, log: seq<nat>, f: nat) {
    exists j :: 0 <= j < |log| && log[j] < |fs| && fs[log[j]] == f
  }

  /** Every registered dependency of every body that ran had run before it. */
  ghost predicate Ordered(fs: seq<nat>, prog: Program, log: seq<nat>) {
    forall k, d :: 0 <= k < |log| && log[k] < |fs| && d in prog(fs[log[k]]).deps && d in fs ==> Ran(fs, log[..k], d)
  }

  /** The dependencies among registered functions are acyclic: a rank falls along each of them. */
  ghost predicate Ranked(fs: seq<nat>, prog: Program, rank: nat -> nat) {
    forall f, d :: f in fs && d in prog(f).deps && d in fs ==> rank(d) < rank(f)
  }

  ghost predicate Above(fs: seq<nat>, rank: nat -> nat, busy: set<nat>, bound: nat) {
    forall p :: p in busy && p < |fs| ==> rank(fs[p]) >= bound
  }

  lemma RanLater(fs: seq<nat>, log: seq<nat>, later: seq<nat>, f: nat)
    requires log <= later && Ran(fs, log, f)
    ensures Ran(fs, later, f)
  {
    var j :| 0 <= j < |log| && log[j] < |fs| && fs[log[j]] == f;
    assert later[j] == log[j];
  }

  lemma {:induction false} OrderedSnoc(fs: seq<nat>, prog: Program, log: seq<nat>, i: nat)
    requires Ordered(fs, prog, log) && i < |fs|
    requires forall d :: d in prog(fs[i]).deps && d in fs ==> Ran(fs, log, d)
    ensures Ordered(fs, prog, log + [i])
  {
    var more := log + [i];
    forall k, d | 0 <= k < |more| && more[k] < |fs| && d in prog(fs[more[k]]).deps && d in fs
      ensures Ran(fs, more[..k], d)
    {
      if k < |log| {
        assert more[..k] == log[..k] && more[k] == log[k];
      } else {
        assert more[..k] == log;
      }
    }
  }

  lemma {:induction false} CallOrdered(fs: seq<nat>, prog: Program, rank: nat -> nat, called: set<nat>, log: seq<nat>,
                                       f: nat, bound: nat)
    requires called <= Positions(fs) && Once(called, log) && AllSucceed(prog) && Ranked(fs, prog, rank)
    requires Ordered(fs, prog, log) && Above(fs, rank, InProgress(called, log), bound) && f in fs && rank(f) < bound
    ensures var s := Call(fs, prog, called, log, f); Ordered(fs, prog, s.log) && Ran(fs, s.log, f)
    decreases Positions(fs) - called, 0, 0
  {
    var i := FindFrom(fs, called, f, 0);
    if i == -1 {
      var p :| 0 <= p < |fs| && fs[p] == f;
      assert p in called && p !in InProgress(called, log);
      assert p in log;
    } else {
      assert i in Positions(fs) - called;
      assert Positions(fs) - (called + {i}) < Positions(fs) - called;
      assert InProgress(called + {i}, log) <= InProgress(called, log) + {i};
      InvokeOrdered(fs, prog, rank, called + {i}, log, i);
    }
  }

  lemma {:induction false} InvokeOrdered(fs: seq<nat>, prog: Program, rank: nat -> nat, called: set<nat>,
                                         log: seq<nat>, i: nat)
    requires called <= Positions(fs) && Once(called, log) && AllSucceed(prog) && Ranked(fs, prog, rank)
    requires i in called && i !in log && i < |fs|
    requires Ordered(fs, prog, log) && Above(fs, rank, InProgress(called, log), rank(fs[i]))
    ensures var s := Invoke(fs, prog, called, log, i); Ordered(fs, prog, s.log) && Ran(fs, s.log, fs[i])
    decreases Positions(fs) - called, 2, 0
  {
    var body := prog(fs[i]);
    var s := CallDeps(fs, prog, called, log, body.deps, body.stopOnError);
    DepsOrdered(fs, prog, rank, called, log, body.deps, body.stopOnError, rank(fs[i]));
    DepsSettle(fs, prog, called, log, body.deps, body.stopOnError);
    OrderedSnoc(fs, prog, s.log, i);
    assert (s.log + [i])[|s.log|] == i;
  }

  lemma {:induction false} DepsOrdered(fs: seq<nat>, prog: Program, rank: nat -> nat, called: set<nat>, log: seq<nat>,
                                       deps: seq<nat>, stop: bool, bound: nat)
    requires called <= Positions(fs) && Once(called, log) && AllSucceed(prog) && Ranked(fs, prog, rank)
    requires Ordered(fs, prog, log) && Above(fs, rank, InProgress(called, log), bound)
    requires forall d :: d in deps && d in fs ==> rank(d) < bound
    ensures var s := CallDeps(fs, prog, called, log, deps, stop);
            Ordered(fs, prog, s.log) && forall d :: d in deps && d in fs ==> Ran(fs, s.log, d)
    decreases Positions(fs) - called, 1, |deps|
  {
    if deps != [] {
      var d := deps[0];
      var s := Call(fs, prog, called, log, d);
      CallSettles(fs, prog, called, log, d);
      CallOnce(fs, prog, called, log, d);
      if d in fs {
        CallOrdered(fs, prog, rank, called, log, d, bound);
      }
      assert Positions(fs) - s.called == Positions(fs) - called || Positions(fs) - s.called < Positions(fs) - called;
      DepsOrdered(fs, prog, rank, s.called, s.log, deps[1..], stop, bound);
      var t := CallDeps(fs, prog, s.called, s.log, deps[1..], stop);
      if d in fs {
        RanLater(fs, s.log, t.log, d);
      }
      assert forall x :: x in deps ==> x == d || x in deps[1..];
    }
  }

  lemma {:induction false} CallAllOrdered(fs: seq<nat>, prog: Program, rank: nat -> nat, called: set<nat>,
                                          log: seq<nat>, from: nat)
    requires called <= Positions(fs) && from <= |fs| && Once(called, log) && AllSucceed(prog) && Ranked(fs, prog, rank)
    requires Ordered(fs, prog, log) && InProgress(called, log) == {}
    ensures Ordered(fs, prog, CallAll(fs, prog, called, log, from).log)
    decreases |fs| - from
  {
    if from < |fs| {
      if from in called {
        CallAllOrdered(fs, prog, rank, called, log, from + 1);
      } else {
        assert InProgress(called + {from}, log) == {from} by { assert from !in log; }
        InvokeOrdered(fs, prog, rank, called + {from}, log, from);
        InvokeOnce(fs, prog, called + {from}, log, from);
        InvokeSettles(fs, prog, called + {from}, log, from);
        var s := Invoke(fs, prog, called + {from}, log, from);
        CallAllOrdered(fs, prog, rank, s.called, s.log, from + 1);
      }
    }
  }

  /** The first time a function's body ran. */
  ghost function FirstRun(fs: seq<nat>, log: seq<nat>, f: nat): (j: nat)
    requires forall k :: 0 <= k < |log| ==> log[k] < |fs|
    ensures j <= |log|
    ensures j < |log| ==> fs[log[j]] == f
    ensures forall k :: 0 <= k < j ==> fs[log[k]] != f
  {
    if log == [] then 0 else if fs[log[0]] == f then 0 else 1 + FirstRun(fs, log[1..], f)
  }

  /** An ordered log in which everything ran is itself a rank. */
  lemma {:induction false} OrderedLogRanks(fs: seq<nat>, prog: Program, log: seq<nat>)
    requires Ordered(fs, prog, log) && Elements(log) == Positions(fs)
    ensures exists rank: nat -> nat :: Ranked(fs, prog, rank)
  {
    forall k | 0 <= k < |log| ensures log[k] < |fs| {
      assert log[k] in Elements(log);
    }
    var rank: nat -> nat := f => FirstRun(fs, log, f);
    forall f, d | f in fs && d in prog(f).deps && d in fs
      ensures rank(d) < rank(f)
    {
      var p :| 0 <= p < |fs| && fs[p] == f;
      assert p in Positions(fs);
      assert p in log;
      var k := FirstRun(fs, log, f);
      assert Ran(fs, log[..k], d);
      var j :| 0 <= j < k && fs[log[..k][j]] == d;
      assert log[..k][j] == log[j];
    }
    assert Ranked(fs, prog, rank);
  }

  /**
   * When every function succeeds, each dependency has finished before its dependent's own body starts
   * if and only if the dependencies among the registered functions are acyclic.
   */
  lemma {:induction false} DependenciesFirstIffAcyclic(fs: seq<nat>, prog: Program)
    requires AllSucceed(prog)
    ensures Ordered(fs, prog, CallAll(fs, prog, {}, [], 0).log) <==> exists rank: nat -> nat :: Ranked(fs, prog, rank)
  {
    EveryElementRunsOnce(fs, prog);
    if Ordered(fs, prog, CallAll(fs, prog, {}, [], 0).log) {
      OrderedLogRanks(fs, prog, CallAll(fs, prog, {}, [], 0).log);
    }
    if rank: nat -> nat :| Ranked(fs, prog, rank) {
      CallAllOrdered(fs, prog, rank, {}, [], 0);
    }
  }

  // ---------- Failures ----------

  ghost predicate AllOk(fs: seq<nat>, prog: Program, log: seq<nat>) {
    forall k :: 0 <= k < |log| && log[k] < |fs| ==> prog(fs[log[k]]).rc == 0
  }

  /** Success means that every body that ran succeeded; failure, that only the last one failed, with that code. */
  ghost predicate FirstFailure(fs: seq<nat>, prog: Program, s: State) {
    if s.rc == 0 then AllOk(fs, prog, s.log)
    else
      && s.log != [] && s.log[|s.log| - 1] < |fs|
      && AllOk(fs, prog, s.log[..|s.log| - 1]) && prog(fs[s.log[|s.log| - 1]]).rc == s.rc
  }

  ghost predicate AllStop(prog: Program) {
    forall f :: prog(f).stopOnError
  }

  lemma {:induction false} CallStops(fs: seq<nat>, prog: Program, called: set<nat>, log: seq<nat>, f: nat)
    requires called <= Positions(fs) && AllStop(prog) && AllOk(fs, prog, log)
    ensures FirstFailure(fs, prog, Call(fs, prog, called, log, f))
    decreases Positions(fs) - called, 0, 0
  {
    var i := FindFrom(fs, called, f, 0);
    if i != -1 {
      assert i in Positions(fs) - called;
      assert Positions(fs) - (called + {i}) < Positions(fs) - called;
      InvokeStops(fs, prog, called + {i}, log, i);
    }
  }

  lemma {:induction false} InvokeStops(fs: seq<nat>, prog: Program, called: set<nat>, log: seq<nat>, i: nat)
    requires called <= Positions(fs) && AllStop(prog) && AllOk(fs, prog, log) && i < |fs|
    ensures FirstFailure(fs, prog, Invoke(fs, prog, called, log, i))
    decreases Positions(fs) - called, 2, 0
  {
    var body := prog(fs[i]);
    DepsStop(fs, prog, called, log, body.deps);
    var s := CallDeps(fs, prog, called, log, body.deps, true);
    assert (s.log + [i])[..|s.log|] == s.log;
  }

  lemma {:induction false} DepsStop(fs: seq<nat>, prog: Program, called: set<nat>, log: seq<nat>, deps: seq<nat>)
    requires called <= Positions(fs) && AllStop(prog) && AllOk(fs, prog, log)
    ensures FirstFailure(fs, prog, CallDeps(fs, prog, called, log, deps, true))
    decreases Positions(fs) - called, 1, |deps|
  {
    if deps != [] {
      CallStops(fs, prog, called, log, deps[0]);
      var s := Call(fs, prog, called, log, deps[0]);
      if s.rc == 0 {
        assert Positions(fs) - s.called == Positions(fs) - called || Positions(fs) - s.called < Positions(fs) - called;
        DepsStop(fs, prog, s.called, s.log, deps[1..]);
      }
    }
  }

  /** When functions give up on a failed dependency, start-up ends at the first failure and returns its code. */
  lemma {:induction false} CallAllStopsAtFirstFailure(fs: seq<nat>, prog: Program, called: set<nat>, log: seq<nat>,
                                                      from: nat)
    requires called <= Positions(fs) && from <= |fs| && AllStop(prog) && AllOk(fs, prog, log)
    ensures FirstFailure(fs, prog, CallAll(fs, prog, called, log, from))
    decreases |fs| - from
  {
    if from < |fs| {
      if from in called {
        CallAllStopsAtFirstFailure(fs, prog, called, log, from + 1);
      } else {
        InvokeStops(fs, prog, called + {from}, log, from);
        var s := Invoke(fs, prog, called + {from}, log, from);
        if s.rc == 0 {
          CallAllStopsAtFirstFailure(fs, prog, s.called, s.log, from + 1);
        }
      }
    }
  }

  // ---------- Start-up with any failures ----------

  /** What is called and has run once the walk has passed the first k elements. */
  ghost function Walk(fs: seq<nat>, prog: Program, k: nat): (s: State)
    requires k <= |fs|
    ensures s.called <= Positions(fs)
  {
    if k == 0 then State({}, [], 0)
    else
      var s := Walk(fs, prog, k - 1);
      if k - 1 in s.called then s.(rc := 0) else Invoke(fs, prog, s.called + {k - 1}, s.log, k - 1)
  }

  /** No element before position k that start-up called itself has failed. */
  ghost predicate PassedUntil(fs: seq<nat>, prog: Program, k: nat)
    requires k <= |fs|
  {
    forall j :: 0 <= j <= k ==> Walk(fs, prog, j).rc == 0
  }

  /** Start-up ended at element p: the walk came to it, called it, and it failed with the code returned. */
  ghost predicate EndedAt(fs: seq<nat>, prog: Program, p: nat, s: State) {
    && p < |fs| && PassedUntil(fs, prog, p) && p !in Walk(fs, prog, p).called
    && s == Invoke(fs, prog, Walk(fs, prog, p).called + {p}, Walk(fs, prog, p).log, p)
  }

  lemma {:induction false} PassedCalled(fs: seq<nat>, prog: Program, k: nat)
    requires k <= |fs|
    ensures forall j :: 0 <= j < k ==> j in Walk(fs, prog, k).called
  {
    if k > 0 {
      PassedCalled(fs, prog, k - 1);
    }
  }

  lemma {:induction false} WalkFrom(fs: seq<nat>, prog: Program, k: nat)
    requires k <= |fs| && PassedUntil(fs, prog, k)
    ensures var s := CallAll(fs, prog, Walk(fs, prog, k).called, Walk(fs, prog, k).log, k);
            if s.rc == 0 then PassedUntil(fs, prog, |fs|) && s == Walk(fs, prog, |fs|)
            else exists p :: EndedAt(fs, prog, p, s)
    decreases |fs| - k
  {
    var w := Walk(fs, prog, k);
    assert w.rc == 0;
    if k < |fs| {
      var next := Walk(fs, prog, k + 1);
      if next.rc == 0 {
        WalkFrom(fs, prog, k + 1);
      } else {
        assert EndedAt(fs, prog, k, next);
      }
    }
  }

  /**
   * Whatever functions do about failed dependencies: start-up returns a code other than 0 exactly when an element
   * it called itself returned it, after all that it called before had returned 0, and it calls none after it; and
   * it returns 0 only when every element has been called.
   */
  lemma {:induction false} StartupEndsAtFailure(fs: seq<nat>, prog: Program)
    ensures var s := CallAll(fs, prog, {}, [], 0);
            if s.rc == 0 then PassedUntil(fs, prog, |fs|) && s == Walk(fs, prog, |fs|) && s.called == Positions(fs)
            else exists p :: EndedAt(fs, prog, p, s)
  {
    assert Walk(fs, prog, 0) == State({}, [], 0);
    WalkFrom(fs, prog, 0);
    PassedCalled(fs, prog, |fs|);
  }

  /** A function without dependencies runs its body and its code is returned, whatever it does about failures. */
  lemma {:induction false} NoDependencies(fs: seq<nat>, prog: Program, called: set<nat>, log: seq<nat>, i: nat)
    requires called <= Positions(fs) && i < |fs| && prog(fs[i]).deps == []
    ensures Invoke(fs, prog, called, log, i) == State(called, log + [i], prog(fs[i]).rc)
  {
  }

  function UpTo(k: nat): (s: seq<nat>)
    ensures |s| == k && forall i :: 0 <= i < k ==> s[i] == i
  {
    seq(k, i => i)
  }

  ghost predicate Independent(fs: seq<nat>, prog: Program) {
    forall i :: 0 <= i < |fs| ==> prog(fs[i]).deps == []
  }

  lemma {:induction false} IndependentFrom(fs: seq<nat>, prog: Program, called: set<nat>, k: nat)
    requires Independent(fs, prog) && k <= |fs| && called == Elements(UpTo(k))
    ensures var s := CallAll(fs, prog, called, UpTo(k), k);
            && k <= |s.log| <= |fs| && s.log == UpTo(|s.log|)
            && (s.rc == 0 <==> forall i :: k <= i < |fs| ==> prog(fs[i]).rc == 0)
            && (s.rc == 0 ==> |s.log| == |fs|)
            && (s.rc != 0 ==> |s.log| > k && s.rc == prog(fs[|s.log| - 1]).rc
                              && forall i :: k <= i < |s.log| - 1 ==> prog(fs[i]).rc == 0)
    decreases |fs| - k
  {
    assert called <= Positions(fs);
    if k < |fs| {
      NoDependencies(fs, prog, called + {k}, UpTo(k), k);
      assert UpTo(k) + [k] == UpTo(k + 1);
      if prog(fs[k]).rc == 0 {
        IndependentFrom(fs, prog, called + {k}, k + 1);
      }
    }
  }

  /**
   * Functions without dependencies, such as the three the plugins register: they run in the order of the list, up to
   * and including the first that fails, whose code is returned, or all of them with the code 0.
   */
  lemma {:induction false} IndependentInOrder(fs: seq<nat>, prog: Program)
    requires Independent(fs, prog)
    ensures var s := CallAll(fs, prog, {}, [], 0);
            && |s.log| <= |fs| && s.log == UpTo(|s.log|)
            && (s.rc == 0 <==> forall i :: 0 <= i < |fs| ==> prog(fs[i]).rc == 0)
            && (s.rc == 0 ==> |s.log| == |fs|)
            && (s.rc != 0 ==> s.log != [] && s.rc == prog(fs[|s.log| - 1]).rc
                              && forall i :: 0 <= i < |s.log| - 1 ==> prog(fs[i]).rc == 0)
  {
    assert UpTo(0) == [];
    IndependentFrom(fs, prog, {}, 0);
  }

  // ---------- What a function finds when its own body starts ----------

  ghost predicate SomeCalled(fs: seq<nat>, called: set<nat>, f: nat) {
    exists i :: 0 <= i < |fs| && fs[i] == f && i in called
  }

  /** After a call some element of the function is called, if there is one. */
  lemma {:induction false} CallCalls(fs: seq<nat>, prog: Program, called: set<nat>, log: seq<nat>, f: nat)
    requires called <= Positions(fs) && f in fs
    ensures SomeCalled(fs, Call(fs, prog, called, log, f).called, f)
  {
    var i := FindFrom(fs, called, f, 0);
    var p :| 0 <= p < |fs| && fs[p] == f;
    assert fs[if i == -1 then p else i] == f;
  }

  /** It is the first uncalled element of the function that a call invokes; with none left, nothing happens. */
  lemma {:induction false} CallFindsFirst(fs: seq<nat>, prog: Program, called: set<nat>, log: seq<nat>, f: nat, i: nat)
    requires called <= Positions(fs) && i <= |fs| && forall j :: 0 <= j < i && fs[j] == f ==> j in called
    ensures i < |fs| && fs[i] == f && i !in called ==>
              Call(fs, prog, called, log, f) == Invoke(fs, prog, called + {i}, log, i)
    ensures i == |fs| ==> Call(fs, prog, called, log, f) == State(called, log, 0)
  {
    var r := FindFrom(fs, called, f, 0);
    assert i == |fs| ==> r == -1;
    assert i < |fs| && fs[i] == f && i !in called ==> r == i;
  }

  lemma {:induction false} DepsCalled(fs: seq<nat>, prog: Program, called: set<nat>, log: seq<nat>, deps: seq<nat>,
                                      stop: bool)
    requires called <= Positions(fs)
    ensures var s := CallDeps(fs, prog, called, log, deps, stop);
            && (!stop ==> s.rc == 0)
            && (s.rc == 0 ==> forall d :: d in deps && d in fs ==> SomeCalled(fs, s.called, d))
    decreases |deps|
  {
    if deps != [] {
      if deps[0] in fs {
        CallCalls(fs, prog, called, log, deps[0]);
      }
      var s := Call(fs, prog, called, log, deps[0]);
      if !(stop && s.rc != 0) {
        DepsCalled(fs, prog, s.called, s.log, deps[1..], stop);
        var t := CallDeps(fs, prog, s.called, s.log, deps[1..], stop);
        if i :| 0 <= i < |fs| && fs[i] == deps[0] && i in s.called {
          assert i in t.called;
        }
      }
    }
  }

  /**
   * Whatever fails, a body that runs is the last to have run, finds every registered dependency called, and its code
   * is returned; a function that gives up on a failed dependency returns another code than 0.
   */
  lemma {:induction false} BodyRunsLast(fs: seq<nat>, prog: Program, called: set<nat>, log: seq<nat>, i: nat)
    requires called <= Positions(fs) && i < |fs|
    ensures var s, body := Invoke(fs, prog, called, log, i), prog(fs[i]);
            || (&& s.rc == body.rc && s.log != [] && s.log[|s.log| - 1] == i
                && forall d :: d in body.deps && d in fs ==> SomeCalled(fs, s.called, d))
            || (body.stopOnError && s.rc != 0)
  {
    DepsCalled(fs, prog, called, log, prog(fs[i]).deps, prog(fs[i]).stopOnError);
  }
}
