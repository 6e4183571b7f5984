/**
 * The registration list on the heap (src/plugins/sc_init.h, src/plugins/sc_init.c): elements linked by
 * `next`, added at the head by constructors, unlinked by destructors, and walked to call the functions.
 */
module Registry {
  import opened RegistryCalls

  /** The position of the first element of function f, or the length. */
  function FirstOf(fs: seq<nat>, f: nat): (k: nat)
    ensures k <= |fs| && (k < |fs| ==> fs[k] == f) && forall j :: 0 <= j < k ==> fs[j] != f
  {
    if fs == [] || fs[0] == f then 0 else 1 + FirstOf(fs[1..], f)
  }

  function Without<T>(s: seq<T>, k: nat): seq<T> {
    if k < |s| then s[..k] + s[k + 1..] else s
  }

  class Element {
    var next: Element?
    var func: nat
    var isCalled: bool

    constructor () {
      next, func, isCalled := null, 0, false;
    }
  }

  /** The element at position i points at the next one, the last element at nothing. */
  ghost predicate Linked(es: seq<Element>, i: int)
    requires 0 <= i < |es|
    reads es
  {
    es[i].next == if i + 1 < |es| then es[i + 1] else null
  }

  class PluginMain {
    var head: Element?
    ghost var elts: seq<Element>
    ghost var log: seq<nat>

    /** The list is the abstract sequence: null-terminated, linked in order, without a repeated element. */
    ghost predicate Valid()
      reads this, elts
    {
      && head == (if elts == [] then null else elts[0])
      && (forall i :: 0 <= i < |elts| ==> Linked(elts, i))
      && (forall i, j :: 0 <= i < j < |elts| ==> elts[i] != elts[j])
    }

    ghost function Funcs(): (fs: seq<nat>)
      reads this, elts
      ensures |fs| == |elts| && forall i :: 0 <= i < |fs| ==> fs[i] == elts[i].func
    {
      seq(|elts|, i requires 0 <= i < |elts| reads this, elts => elts[i].func)
    }

    /** The positions whose flag is set. */
    ghost function Called(): (c: set<nat>)
      reads this, elts
      ensures c <= Positions(Funcs())
    {
      set i | 0 <= i < |elts| && elts[i].isCalled
    }

    constructor ()
      ensures Valid() && elts == [] && log == []
    {
      head, elts, log := null, [], [];
    }

    /** The constructor half of SC_DECLARE_FUNCTION: the new element becomes the head. */
    method Add(e: Element, f: nat)
      requires Valid() && e !in elts
      modifies this`head, this`elts, e
      ensures Valid() && elts == [e] + old(elts)
      ensures e.func == f && !e.isCalled
      ensures Funcs() == [f] + old(Funcs())
    {
      ghost var rest := elts;
      e.next := head;
      e.func := f;
      e.isCalled := false;
      head := e;
      elts := [e] + elts;
      assert Linked(elts, 0);
      forall i | 0 < i < |elts| ensures Linked(elts, i) {
        assert old(Linked(rest, i - 1)) && elts[i] == rest[i - 1];
      }
    }

    /**
     * The destructor half: it dereferences the head unguarded, so the list must not be empty. It drops
     * the first element of f; order and flags of all others stay (only `next` may change).
     */
    method Remove(f: nat)
      requires Valid() && elts != []
      modifies this`head, this`elts, elts`next
      ensures Valid() && elts == Without(old(elts), FirstOf(old(Funcs()), f))
      ensures Funcs() == Without(old(Funcs()), FirstOf(old(Funcs()), f))
    {
      if head.func == f {
        assert FirstOf(Funcs(), f) == 0;
        RemoveHead();
        return;
      }
      var p := head;
      ghost var i := 0;
      while p.next != null
        invariant 0 <= i < |elts| && p == elts[i]
        invariant forall j :: 0 <= j <= i ==> elts[j].func != f
        decreases |elts| - i
      {
        assert Linked(elts, i);
        if p.next.func == f {
          FirstOfIs(Funcs(), f, i + 1);
          Unlink(p, i);
          return;
        }
        p := p.next;
        i := i + 1;
      }
      assert Linked(elts, i);
      FirstOfIs(Funcs(), f, |elts|);
    }

    method RemoveHead()
      requires Valid() && elts != []
      modifies this`head, this`elts
      ensures Valid() && elts == Without(old(elts), 0) && Funcs() == Without(old(Funcs()), 0)
    {
      ghost var was, fs := elts, Funcs();
      assert Linked(elts, 0);
      head := head.next;
      elts := elts[1..];
      assert forall i :: 0 <= i < |elts| ==> elts[i] == was[i + 1];
      forall i | 0 <= i < |elts| ensures Linked(elts, i) {
        assert Linked(was, i + 1);
      }
      assert Funcs() == fs[1..];
      assert Without(was, 0) == was[1..] && Without(fs, 0) == fs[1..];
    }

    /** Unlinks the successor of the element at position i. */
    method Unlink(p: Element, ghost i: nat)
      requires Valid() && i + 1 < |elts| && p == elts[i]
      modifies this`elts, p`next
      ensures Valid() && elts == Without(old(elts), i + 1) && Funcs() == Without(old(Funcs()), i + 1)
    {
      ghost var was := elts;
      assert Linked(elts, i) && Linked(elts, i + 1);
      p.next := p.next.next;
      elts := elts[..i + 1] + elts[i + 2..];
      forall j | 0 <= j < |elts| ensures Linked(elts, j) {
        assert old(Linked(was, j)) && (i < j ==> old(Linked(was, j + 1)));
      }
    }

    /**
     * sc_call_init_function: walks to the first element of f whose flag is clear, sets it and runs it.
     * Terminates although functions call each other: the flags still clear only get fewer.
     */
    method CallInit(prog: Program, f: nat) returns (rc: int)
      requires Valid()
      modifies this`log, elts`isCalled
      ensures Valid() && Funcs() == old(Funcs())
      ensures State(Called(), log, rc) == Call(Funcs(), prog, old(Called()), old(log), f)
      decreases Positions(Funcs()) - Called(), 0
    {
      rc := 0;
      var p := head;
      ghost var i := 0;
      while p != null
        invariant 0 <= i <= |elts| && p == if i < |elts| then elts[i] else null
        invariant FindFrom(Funcs(), Called(), f, 0) == FindFrom(Funcs(), Called(), f, i)
        decreases |elts| - i
      {
        if p.func == f && !p.isCalled {
          ghost var called := Called();
          SetFlag(p, i);
          assert i in Positions(Funcs()) - called;
          rc := Invoke(prog, p.func, i);
          return;
        }
        assert Linked(elts, i);
        p := p.next;
        i := i + 1;
      }
    }

    method SetFlag(p: Element, ghost i: nat)
      requires Valid() && i < |elts| && p == elts[i]
      modifies p`isCalled
      ensures Valid() && Funcs() == old(Funcs()) && Called() == old(Called()) + {i}
    {
      p.isCalled := true;
      assert forall j :: 0 <= j < |elts| && j != i ==> elts[j] != p;
      forall j | 0 <= j < |elts| ensures Linked(elts, j) {
        assert old(Linked(elts, j));
      }
    }

    /** An init function, called through its pointer: its dependencies one by one, then its own body. */
    method Invoke(prog: Program, f: nat, ghost i: nat) returns (rc: int)
      requires Valid() && i < |elts| && elts[i].func == f
      modifies this`log, elts`isCalled
      ensures Valid() && Funcs() == old(Funcs())
      ensures State(Called(), log, rc) == RegistryCalls.Invoke(Funcs(), prog, old(Called()), old(log), i)
      decreases Positions(Funcs()) - Called(), 2
    {
      var body := prog(f);
      rc := CallDependencies(prog, body.deps, body.stopOnError);
      if body.stopOnError && rc != 0 {
        return;
      }
      log := log + [i];
      rc := body.rc;
    }

    method CallDependencies(prog: Program, deps: seq<nat>, stop: bool) returns (rc: int)
      requires Valid()
      modifies this`log, elts`isCalled
      ensures Valid() && Funcs() == old(Funcs())
      ensures State(Called(), log, rc) == CallDeps(Funcs(), prog, old(Called()), old(log), deps, stop)
      decreases Positions(Funcs()) - Called(), 1
    {
      rc := 0;
      var todo := deps;
      ghost var goal := CallDeps(Funcs(), prog, Called(), log, deps, stop);
      while todo != []
        invariant Valid() && Funcs() == old(Funcs()) && old(Called()) <= Called()
        invariant rc == 0 && goal == CallDeps(Funcs(), prog, Called(), log, todo, stop)
        decreases |todo|
      {
        ghost var open := Positions(Funcs()) - Called();
        assert open == old(Positions(Funcs()) - Called()) || open < old(Positions(Funcs()) - Called());
        rc := CallInit(prog, todo[0]);
        if stop && rc != 0 {
          return;
        }
        rc := 0;
        todo := todo[1..];
      }
    }

    /** sc_call_all_init_function: walks the list and runs every element whose flag is clear. */
    method CallAllInit(prog: Program) returns (rc: int)
      requires Valid()
      modifies this`log, elts`isCalled
      ensures Valid() && Funcs() == old(Funcs())
      ensures State(Called(), log, rc) == CallAll(Funcs(), prog, old(Called()), old(log), 0)
    {
      rc := 0;
      var p := head;
      ghost var i := 0;
      ghost var goal := CallAll(Funcs(), prog, Called(), log, 0);
      while p != null
        invariant 0 <= i <= |elts| && p == if i < |elts| then elts[i] else null
        invariant Valid() && Funcs() == old(Funcs()) && rc == 0 && goal == CallAll(Funcs(), prog, Called(), log, i)
        decreases |elts| - i
      {
        if !p.isCalled {
          SetFlag(p, i);
          rc := Invoke(prog, p.func, i);
          if rc != 0 {
            return;
          }
        }
        assert Linked(elts, i);
        p := p.next;
        i := i + 1;
      }
    }
  }

  lemma FirstOfIs(fs: seq<nat>, f: nat, k: nat)
    requires k <= |fs| && (k < |fs| ==> fs[k] == f) && forall j :: 0 <= j < k ==> fs[j] != f
    ensures FirstOf(fs, f) == k
  {
    assert FirstOf(fs, f) >= k;
  }

  // ---------- Any interleaving of registrations and removals ----------

  datatype Registration = Register(func: nat) | Unregister(func: nat)

  /** The sequence after one registration or removal. */
  function Performed(fs: seq<nat>, op: Registration): seq<nat> {
    match op
    case Register(f) => [f] + fs
    case Unregister(f) => Without(fs, FirstOf(fs, f))
  }

  function Registered(fs: seq<nat>, ops: seq<Registration>): seq<nat>
    decreases |ops|
  {
    if ops == [] then fs else Registered(Performed(fs, ops[0]), ops[1..])
  }

  /** Destructors run only for functions whose constructor ran. */
  ghost predicate Paired(fs: seq<nat>, ops: seq<Registration>)
    decreases |ops|
  {
    ops == [] || ((ops[0].Unregister? ==> ops[0].func in fs) && Paired(Performed(fs, ops[0]), ops[1..]))
  }

  method Perform(pm: PluginMain, op: Registration)
    requires pm.Valid() && (op.Unregister? ==> op.func in pm.Funcs())
    modifies pm`head, pm`elts, pm.elts`next
    ensures pm.Valid() && pm.Funcs() == Performed(old(pm.Funcs()), op)
    ensures forall i :: 0 <= i < |pm.elts| ==> pm.elts[i] in old(pm.elts) || fresh(pm.elts[i])
  {
    match op {
      case Register(f) =>
        var e := new Element();
        pm.Add(e, f);
      case Unregister(f) =>
        pm.Remove(f);
    }
  }

  /**
   * Every interleaving keeps the list well formed and equal to the abstract sequence; the unguarded access
   * to the head is safe throughout because a function that is removed is registered.
   */
  method Replay(ops: seq<Registration>) returns (pm: PluginMain)
    requires Paired([], ops)
    ensures fresh(pm) && pm.Valid() && pm.Funcs() == Registered([], ops)
  {
    pm := new PluginMain();
    var todo := ops;
    while todo != []
      invariant fresh(pm) && pm.Valid() && (forall i :: 0 <= i < |pm.elts| ==> fresh(pm.elts[i]))
      invariant Paired(pm.Funcs(), todo) && Registered(pm.Funcs(), todo) == Registered([], ops)
      decreases |todo|
    {
      Perform(pm, todo[0]);
      todo := todo[1..];
    }
  }

  /** Registering a function and removing it again gives back the list that was there. */
  lemma RegisterThenUnregister(fs: seq<nat>, f: nat)
    ensures Registered(fs, [Register(f), Unregister(f)]) == fs
  {
    var ops := [Register(f), Unregister(f)];
    assert ops[1..] == [Unregister(f)] && [Unregister(f)][1..] == [];
    assert FirstOf([f] + fs, f) == 0;
    assert Without([f] + fs, 0) == fs;
    assert Registered([f] + fs, [Unregister(f)]) == Registered(Performed([f] + fs, Unregister(f)), []);
  }

  /** On the heap: the same elements in the same order, the same head and the same links. */
  method AddThenRemove(pm: PluginMain, e: Element, f: nat)
    requires pm.Valid() && e !in pm.elts
    modifies pm`head, pm`elts, e, pm.elts`next
    ensures pm.Valid() && pm.elts == old(pm.elts) && pm.head == old(pm.head)
    ensures forall x :: x in pm.elts ==> x.next == old(x.next)
  {
    ghost var was := pm.elts;
    pm.Add(e, f);
    RegisterThenUnregister(old(pm.Funcs()), f);
    assert FirstOf(pm.Funcs(), f) == 0;
    pm.Remove(f);
    assert pm.elts == was;
    forall i | 0 <= i < |was| ensures was[i].next == old(was[i].next) {
      assert Linked(was, i) && old(Linked(was, i));
    }
  }

  lemma {:induction false} WithoutMultiset(fs: seq<nat>, f: nat)
    requires f in fs
    ensures multiset(Without(fs, FirstOf(fs, f))) == multiset(fs) - multiset{f}
  {
    var k := FirstOf(fs, f);
    assert k < |fs|;
    assert fs == fs[..k] + [f] + fs[k + 1..];
  }

  /** The functions registered (or, with false, removed) by a run. */
  function Count(ops: seq<Registration>, register: bool): multiset<nat> {
    if ops == [] then multiset{}
    else (if ops[0].Register? == register then multiset{ops[0].func} else multiset{}) + Count(ops[1..], register)
  }

  lemma ShiftIn(r: multiset<nat>, c0: multiset<nat>, fs: seq<nat>, c1: multiset<nat>, f: nat)
    requires r + c0 == multiset([f] + fs) + c1
    ensures r + (multiset{} + c0) == multiset(fs) + (multiset{f} + c1)
  {
    var m := multiset(fs);
    assert multiset([f] + fs) == multiset{f} + m;
    forall x ensures (r + (multiset{} + c0))[x] == (m + (multiset{f} + c1))[x] {
      assert (r + c0)[x] == (multiset{f} + m + c1)[x];
    }
  }

  lemma ShiftOut(r: multiset<nat>, c0: multiset<nat>, m: multiset<nat>, c1: multiset<nat>, f: nat)
    requires f in m && r + c0 == (m - multiset{f}) + c1
    ensures r + (multiset{f} + c0) == m + (multiset{} + c1)
  {
    forall x ensures (r + (multiset{f} + c0))[x] == (m + (multiset{} + c1))[x] {
      assert (r + c0)[x] == ((m - multiset{f}) + c1)[x];
    }
  }

  /** Conservation: what is in the list and what was removed is what was there and what was registered. */
  lemma {:induction false} Conserved(fs: seq<nat>, ops: seq<Registration>)
    requires Paired(fs, ops)
    ensures multiset(Registered(fs, ops)) + Count(ops, false) == multiset(fs) + Count(ops, true)
    decreases |ops|
  {
    if ops != [] {
      var r, f := multiset(Registered(fs, ops)), ops[0].func;
      var removed, added := Count(ops[1..], false), Count(ops[1..], true);
      if ops[0].Register? {
        Conserved([f] + fs, ops[1..]);
        ShiftIn(r, removed, fs, added, f);
      } else {
        WithoutMultiset(fs, f);
        Conserved(Without(fs, FirstOf(fs, f)), ops[1..]);
        ShiftOut(r, removed, multiset(fs), added, f);
      }
    }
  }
}
