/**
 * The two interface configuration callbacks, for the IETF model (src/plugins/ietf/ietf_interface.cpp) and for
 * the OpenConfig model (src/plugins/openconfig/openconfig_interfaces.cpp).
 */
module InterfaceConfig {
  import opened Wrappers
  import opened ObjectModel
  import opened AddressChange

  datatype IfLeaf = Name(text: string) | IfType(text: string) | EnabledLeaf(on: bool) | AnyOther

  /** A change: the interface name in its xpath, its new value, or its old one when deleted. */
  datatype IfChange = IfChange(oper: Oper, itf: string, leaf: IfLeaf)

  const ETHERNET := "iana-if-type:ethernetCsmacd"

  /** interface_builder; the state starts uninitialised. */
  datatype IfBuilder = IfBuilder(name: string, typed: bool, state: bool)

  /** Where the loop stands: the variables it carries and the database, or the way it was left. */
  datatype IfScan =
    | Scanning(create: bool, remove: bool, changed: bool, builder: IfBuilder, found: string, db: Database)
    | Left(rc: Code, db: Database)
    | Crashed

  /** What both switches do with a change. `intf->set` changes the object in the database on the spot. */
  function Switch(s: IfScan, c: IfChange): IfScan
    requires s.Scanning?
  {
    match c.oper
    case Created =>
      (match c.leaf
       case Name(text) => s.(create := true, builder := s.builder.(name := text))
       case IfType(text) => s.(builder := s.builder.(typed := s.builder.typed || text == ETHERNET))
       case EnabledLeaf(on) => s.(builder := s.builder.(state := on))
       case AnyOther => s)
    case Modified =>
      if !c.leaf.EnabledLeaf? then s
      else if !HasInterface(s.db, c.itf) then Left(OperationFailed, s.db)
      else s.(changed := true, found := c.itf, db := s.db[InterfaceKey(c.itf) := Interface(c.itf, c.leaf.on)])
    case Deleted => if c.leaf.Name? then s.(remove := true, builder := s.builder.(name := c.leaf.text)) else s
    case Moved => Left(Unsupported, s.db)
  }

  function IetfStep(s: IfScan, c: IfChange): IfScan {
    if s.Scanning? then Switch(s, c) else s
  }

  /** The OpenConfig loop first reads the new value's xpath, which a deletion does not have. */
  function OcStep(s: IfScan, c: IfChange): IfScan {
    if !s.Scanning? then s
    else if c.oper == Deleted then Crashed
    else if c.itf == "" then Left(InvalArg, s.db)
    else Switch(s, c)
  }

  function Begin(db: Database, garbage: bool): IfScan {
    Scanning(false, false, false, IfBuilder("", false, garbage), "", db)
  }

  function IetfScan(db: Database, garbage: bool, changes: seq<IfChange>): IfScan {
    if changes == [] then Begin(db, garbage)
    else IetfStep(IetfScan(db, garbage, changes[..|changes| - 1]), changes[|changes| - 1])
  }

  function OcScan(db: Database, garbage: bool, changes: seq<IfChange>): IfScan {
    if changes == [] then Begin(db, garbage)
    else OcStep(OcScan(db, garbage, changes[..|changes| - 1]), changes[|changes| - 1])
  }

  datatype IfOutcome = IfOutcome(db: Database, ops: seq<Op>, rc: Code) | Crash

  /** What follows either loop. */
  function Conclude(s: IfScan, accepted: bool): IfOutcome {
    match s
    case Crashed => Crash
    case Left(rc, db) => IfOutcome(db, [], rc)
    case Scanning(create, remove, changed, builder, found, db) =>
      if create && (builder.name == "" || !builder.typed) then IfOutcome(db, [], InvalArg)
      else if create then Put(db, builder.name, Interface(builder.name, builder.state), accepted)
      else if changed then
        if InterfaceKey(found) in db then Put(db, found, db[InterfaceKey(found)], accepted) else Crash
      else if remove then
        IfOutcome(db - {InterfaceKey(builder.name)}, [Remove(InterfaceKey(builder.name))], Ok)
      else IfOutcome(db, [], Ok)
  }

  function Put(db: Database, name: string, obj: Object, accepted: bool): IfOutcome {
    if accepted then IfOutcome(db[InterfaceKey(name) := obj], [Write(InterfaceKey(name), obj)], Ok)
    else IfOutcome(db, [], OperationFailed)
  }

  function Ietf(db: Database, garbage: bool, event: Event, changes: seq<IfChange>, accepted: bool): IfOutcome {
    if event != Verify then IfOutcome(db, [], Ok) else Conclude(IetfScan(db, garbage, changes), accepted)
  }

  function OpenConfig(db: Database, garbage: bool, event: Event, changes: seq<IfChange>, accepted: bool): IfOutcome {
    if event != Verify then IfOutcome(db, [], Ok) else Conclude(OcScan(db, garbage, changes), accepted)
  }

  // ---------- The imperative callback ----------

  /** interface_builder with its setters. */
  class Builder {
    var name: string
    var type_: string
    var state: bool

    function View(): IfBuilder
      reads this
    {
      IfBuilder(name, type_ != "", state)
    }

    constructor (garbage: bool)
      ensures View() == IfBuilder("", false, garbage)
    {
      name, type_, state := "", "", garbage;
    }

    method Set(leaf: IfLeaf)
      modifies this
      ensures View() == match leaf
                        case Name(text) => old(View()).(name := text)
                        case IfType(text) => old(View()).(typed := old(View()).typed || text == ETHERNET)
                        case EnabledLeaf(on) => old(View()).(state := on)
                        case AnyOther => old(View())
    {
      match leaf
      case Name(text) => name := text;
      case IfType(text) => if text == ETHERNET { type_ := "ETHERNET"; }
      case EnabledLeaf(on) => state := on;
      case AnyOther =>
    }
  }

  /** A modified object is still in the database when the loop ends. */
  lemma {:induction false} FoundStays(db: Database, garbage: bool, changes: seq<IfChange>)
    ensures var s := IetfScan(db, garbage, changes); s.Scanning? && s.changed ==> InterfaceKey(s.found) in s.db
    ensures !IetfScan(db, garbage, changes).Crashed?
    decreases |changes|
  {
    if changes != [] {
      FoundStays(db, garbage, changes[..|changes| - 1]);
    }
  }

  /** The switch of either loop on one change; a code when it leaves the loop. */
  method HandleChange(om: Om, builder: Builder, c: IfChange, create: bool, remove: bool, changed: bool, found: string)
    returns (left: Option<Code>, create': bool, remove': bool, changed': bool, found': string)
    modifies builder, om`db
    ensures var s := Switch(Scanning(create, remove, changed, old(builder.View()), found, old(om.db)), c);
            && (left.None? ==> s == Scanning(create', remove', changed', builder.View(), found', om.db))
            && (left.Some? ==> s == Left(left.value, om.db))
  {
    left, create', remove', changed', found' := None, create, remove, changed, found;
    match c.oper {
      case Modified =>
        if c.leaf.EnabledLeaf? {
          if !HasInterface(om.db, c.itf) {
            left := Some(OperationFailed);
          } else {
            om.db := om.db[InterfaceKey(c.itf) := Interface(c.itf, c.leaf.on)];
            found', changed' := c.itf, true;
          }
        }
      case Created =>
        builder.Set(c.leaf);
        create' := create || c.leaf.Name?;
      case Deleted =>
        if c.leaf.Name? {
          builder.Set(c.leaf);
          remove' := true;
        }
      case Moved =>
        left := Some(Unsupported);
    }
  }

  /** ietf_interface_create_cb */
  method IetfCreateCallback(om: Om, garbage: bool, event: Event, changes: seq<IfChange>,
                            accepted: bool) returns (rc: Code)
    modifies om
    ensures var out := Ietf(old(om.db), garbage, event, changes, accepted);
            out.IfOutcome? && rc == out.rc && om.db == out.db && om.sent == old(om.sent) + out.ops
  {
    if event != Verify {
      return Ok;
    }
    var create, remove, changed, found := false, false, false, "";
    var builder := new Builder(garbage);
    var i := 0;
    while i < |changes|
      invariant 0 <= i <= |changes| && fresh(builder) && om.sent == old(om.sent)
      invariant IetfScan(old(om.db), garbage, changes[..i])
             == Scanning(create, remove, changed, builder.View(), found, om.db)
    {
      assert changes[..i + 1][..i] == changes[..i];
      var left;
      left, create, remove, changed, found := HandleChange(om, builder, changes[i], create, remove, changed, found);
      if left.Some? {
        StaysLeft(old(om.db), garbage, changes, i + 1);
        return left.value;
      }
      i := i + 1;
    }
    assert changes[..i] == changes;
    FoundStays(old(om.db), garbage, changes);
    rc := Commit(om, create, remove, changed, builder.View(), found, accepted);
  }

  /** The end of the callback: build, then write or remove. */
  method Commit(om: Om, create: bool, remove: bool, changed: bool, b: IfBuilder, found: string,
                accepted: bool) returns (rc: Code)
    requires changed ==> InterfaceKey(found) in om.db
    modifies om
    ensures var out := Conclude(Scanning(create, remove, changed, b, found, old(om.db)), accepted);
            out.IfOutcome? && rc == out.rc && om.db == out.db && om.sent == old(om.sent) + out.ops
  {
    rc := Ok;
    if create && (b.name == "" || !b.typed) {
      return InvalArg;
    }
    if create || changed {
      var name := if create then b.name else found;
      var obj := if create then Interface(b.name, b.state) else om.db[InterfaceKey(found)];
      var ok := om.Write(InterfaceKey(name), obj, accepted);
      if !ok {
        rc := OperationFailed;
      }
    } else if remove {
      om.Remove(InterfaceKey(b.name));
    }
  }

  lemma {:induction false} StaysLeft(db: Database, garbage: bool, changes: seq<IfChange>, i: nat)
    requires i <= |changes| && !IetfScan(db, garbage, changes[..i]).Scanning?
    ensures IetfScan(db, garbage, changes) == IetfScan(db, garbage, changes[..i])
    decreases |changes| - i
  {
    if i == |changes| {
      assert changes[..i] == changes;
    } else {
      assert changes[..i + 1][..i] == changes[..i];
      StaysLeft(db, garbage, changes, i + 1);
    }
  }

  lemma {:induction false} OcFoundStays(db: Database, garbage: bool, changes: seq<IfChange>)
    ensures var s := OcScan(db, garbage, changes); s.Scanning? && s.changed ==> InterfaceKey(s.found) in s.db
    decreases |changes|
  {
    if changes != [] {
      OcFoundStays(db, garbage, changes[..|changes| - 1]);
    }
  }

  lemma {:induction false} OcStaysLeft(db: Database, garbage: bool, changes: seq<IfChange>, i: nat)
    requires i <= |changes| && !OcScan(db, garbage, changes[..i]).Scanning?
    ensures OcScan(db, garbage, changes) == OcScan(db, garbage, changes[..i])
    decreases |changes| - i
  {
    if i == |changes| {
      assert changes[..i] == changes;
    } else {
      assert changes[..i + 1][..i] == changes[..i];
      OcStaysLeft(db, garbage, changes, i + 1);
    }
  }

  /** oc_interfaces_config_cb; None stands for the dereference of the missing new value. */
  method OcConfigCallback(om: Om, garbage: bool, event: Event, changes: seq<IfChange>, accepted: bool)
    returns (rc: Option<Code>)
    modifies om
    ensures var out := OpenConfig(old(om.db), garbage, event, changes, accepted);
            && (rc.None? <==> out.Crash?)
            && (rc.Some? ==> rc.value == out.rc && om.db == out.db && om.sent == old(om.sent) + out.ops)
  {
    if event != Verify {
      return Some(Ok);
    }
    var create, remove, changed, found := false, false, false, "";
    var builder := new Builder(garbage);
    var i := 0;
    while i < |changes|
      invariant 0 <= i <= |changes| && fresh(builder) && om.sent == old(om.sent)
      invariant OcScan(old(om.db), garbage, changes[..i])
             == Scanning(create, remove, changed, builder.View(), found, om.db)
    {
      var c := changes[i];
      assert changes[..i + 1][..i] == changes[..i];
      var verdict := if c.oper == Deleted then Some(None) else if c.itf == "" then Some(Some(InvalArg)) else None;
      if verdict.None? {
        var left;
        left, create, remove, changed, found := HandleChange(om, builder, c, create, remove, changed, found);
        verdict := if left.Some? then Some(left) else None;
      }
      if verdict.Some? {
        OcStaysLeft(old(om.db), garbage, changes, i + 1);
        return verdict.value;
      }
      i := i + 1;
    }
    assert changes[..i] == changes;
    OcFoundStays(old(om.db), garbage, changes);
    var code := Commit(om, create, remove, changed, builder.View(), found, accepted);
    rc := Some(code);
  }

  // ---------- The loop read off the batch ----------

  /** A change that ends the loop: an unsupported operation or the admin state of a missing interface. */
  predicate Stops(db: Database, c: IfChange) {
    c.oper == Moved || (c.oper == Modified && c.leaf.EnabledLeaf? && !HasInterface(db, c.itf))
  }

  /** How many changes are handled before one ends the loop. */
  function HandledCount(db: Database, changes: seq<IfChange>): (n: nat)
    ensures n <= |changes| && (n < |changes| ==> Stops(db, changes[n]))
    ensures forall i :: 0 <= i < n ==> !Stops(db, changes[i])
  {
    if changes == [] || Stops(db, changes[0]) then 0 else 1 + HandledCount(db, changes[1..])
  }

  function Handled(db: Database, changes: seq<IfChange>): seq<IfChange> {
    changes[..HandledCount(db, changes)]
  }

  predicate SetsState(c: IfChange) { c.oper == Modified && c.leaf.EnabledLeaf? }

  /** The admin state last requested for an interface. */
  function LastState(changes: seq<IfChange>, name: string): Option<bool> {
    if changes == [] then None
    else
      var c := changes[|changes| - 1];
      if SetsState(c) && c.itf == name then Some(c.leaf.on) else LastState(changes[..|changes| - 1], name)
  }

  /** The interface whose admin state was requested last. */
  function LastModified(changes: seq<IfChange>): Option<string> {
    if changes == [] then None
    else
      var c := changes[|changes| - 1];
      if SetsState(c) then Some(c.itf) else LastModified(changes[..|changes| - 1])
  }

  /** The name the builder ends up with: the last one created or deleted. */
  function LastName(changes: seq<IfChange>): string {
    if changes == [] then ""
    else
      var c := changes[|changes| - 1];
      if (c.oper == Created || c.oper == Deleted) && c.leaf.Name? then c.leaf.text
      else LastName(changes[..|changes| - 1])
  }

  predicate Creates(changes: seq<IfChange>) {
    changes != [] &&
    var c := changes[|changes| - 1];
    (c.oper == Created && c.leaf.Name?) || Creates(changes[..|changes| - 1])
  }

  predicate Typed(changes: seq<IfChange>) {
    changes != [] &&
    var c := changes[|changes| - 1];
    (c.oper == Created && c.leaf == IfType("iana-if-type:ethernetCsmacd")) || Typed(changes[..|changes| - 1])
  }

  /** What a batch that runs to its end leaves in the loop's variables. */
  ghost predicate Gathered(changes: seq<IfChange>, s: IfScan)
    requires s.Scanning?
  {
    && s.create == Creates(changes) && s.builder.name == LastName(changes) && s.builder.typed == Typed(changes)
    && s.changed == LastModified(changes).Some? && (s.changed ==> s.found == LastModified(changes).value)
  }

  /** And in the database: the states last requested, and nothing else. */
  ghost predicate StatesSet(db: Database, changes: seq<IfChange>, after: Database) {
    && after.Keys == db.Keys
    && (forall k :: k in db && !k.InterfaceKey? ==> after[k] == db[k])
    && (forall n :: InterfaceKey(n) in db ==> after[InterfaceKey(n)] == StateAfter(db, changes, n))
  }

  function StateAfter(db: Database, changes: seq<IfChange>, name: string): Object
    requires InterfaceKey(name) in db
  {
    match LastState(changes, name)
    case Some(on) => Interface(name, on)
    case None => db[InterfaceKey(name)]
  }

  lemma {:induction false} NoStateNoModification(changes: seq<IfChange>, name: string)
    requires LastModified(changes).None?
    ensures LastState(changes, name).None?
  {
    if changes != [] {
      NoStateNoModification(changes[..|changes| - 1], name);
    }
  }

  lemma StatesStep(db: Database, init: seq<IfChange>, c: IfChange, s: IfScan)
    requires s.Scanning? && StatesSet(db, init, s.db) && !Stops(db, c)
    ensures Switch(s, c).Scanning? && StatesSet(db, init + [c], Switch(s, c).db)
  {
    assert HasInterface(s.db, c.itf) <==> HasInterface(db, c.itf);
    assert (init + [c])[..|init|] == init;
    forall n | InterfaceKey(n) in db
      ensures Switch(s, c).db[InterfaceKey(n)] == StateAfter(db, init + [c], n)
    {
      assert s.db[InterfaceKey(n)] == StateAfter(db, init, n);
    }
  }

  lemma GatherStep(db: Database, init: seq<IfChange>, c: IfChange, s: IfScan)
    requires s.Scanning? && Gathered(init, s) && Switch(s, c).Scanning?
    ensures Gathered(init + [c], Switch(s, c))
  {
    assert (init + [c])[..|init|] == init;
  }

  lemma {:induction false} RunsThrough(db: Database, garbage: bool, changes: seq<IfChange>)
    requires forall i :: 0 <= i < |changes| ==> !Stops(db, changes[i])
    ensures var s := IetfScan(db, garbage, changes); s.Scanning? && Gathered(changes, s) && StatesSet(db, changes, s.db)
    decreases |changes|
  {
    if changes != [] {
      var init, c := changes[..|changes| - 1], changes[|changes| - 1];
      RunsThrough(db, garbage, init);
      var s := IetfScan(db, garbage, init);
      assert changes == init + [c];
      StatesStep(db, init, c, s);
      GatherStep(db, init, c, s);
    }
  }

  /** A batch with a change that ends the loop is left there, with the states set so far. */
  lemma {:induction false} LeftAtStop(db: Database, garbage: bool, changes: seq<IfChange>)
    requires HandledCount(db, changes) < |changes|
    ensures var s := IetfScan(db, garbage, changes);
            s.Left? && s.rc != Ok && StatesSet(db, Handled(db, changes), s.db)
  {
    var n := HandledCount(db, changes);
    var h := changes[..n];
    RunsThrough(db, garbage, h);
    assert changes[..n + 1][..n] == h && changes[..n + 1][n] == changes[n];
    assert HasInterface(IetfScan(db, garbage, h).db, changes[n].itf) <==> HasInterface(db, changes[n].itf);
    StaysLeft(db, garbage, changes, n + 1);
  }

  // ---------- What reaches VPP ----------

  /** The interface the callback writes at its end, if it writes one: all tests on the batch and the write's answer. */
  function Written(db: Database, changes: seq<IfChange>, accepted: bool): Option<string> {
    if HandledCount(db, changes) < |changes| || !accepted then None
    else if Creates(changes) then if LastName(changes) != "" && Typed(changes) then Some(LastName(changes)) else None
    else LastModified(changes)
  }

  /** The interface already had the state last requested for it, or none was requested. */
  predicate Unmoved(db: Database, changes: seq<IfChange>, name: string) {
    LastState(changes, name).Some? ==>
      InterfaceKey(name) in db && db[InterfaceKey(name)] == Interface(name, LastState(changes, name).value)
  }

  lemma {:induction false} StateOfHandled(db: Database, changes: seq<IfChange>, name: string)
    requires forall i :: 0 <= i < |changes| ==> !Stops(db, changes[i])
    ensures LastState(changes, name).Some? ==> InterfaceKey(name) in db
    decreases |changes|
  {
    if changes != [] {
      StateOfHandled(db, changes[..|changes| - 1], name);
    }
  }

  /** Setting the states changes nothing outside some keys exactly when all other interfaces are unmoved. */
  lemma SameExcept(db: Database, changes: seq<IfChange>, after: Database, except: set<Key>)
    requires StatesSet(db, changes, after) && forall i :: 0 <= i < |changes| ==> !Stops(db, changes[i])
    ensures (forall k :: k in db && k !in except ==> after[k] == db[k]) <==>
            forall n :: InterfaceKey(n) !in except ==> Unmoved(db, changes, n)
  {
    forall n ensures LastState(changes, n).Some? ==> InterfaceKey(n) in db {
      StateOfHandled(db, changes, n);
    }
    if forall n :: InterfaceKey(n) !in except ==> Unmoved(db, changes, n) {
      forall k | k in db && k !in except ensures after[k] == db[k] {
        if k.InterfaceKey? {
          assert Unmoved(db, changes, k.name);
          assert after[InterfaceKey(k.name)] == StateAfter(db, changes, k.name);
        }
      }
    }
    if forall k :: k in db && k !in except ==> after[k] == db[k] {
      forall n | InterfaceKey(n) !in except ensures Unmoved(db, changes, n) {
        if InterfaceKey(n) in db {
          assert after[InterfaceKey(n)] == StateAfter(db, changes, n);
        }
      }
    }
  }

  /** With nothing written, the database and the commands agree exactly when nothing was moved. */
  lemma NothingWritten(db: Database, changes: seq<IfChange>, after: Database)
    requires StatesSet(db, changes, after) && forall i :: 0 <= i < |changes| ==> !Stops(db, changes[i])
    ensures after == ApplyAll(db, []) <==> forall n :: Unmoved(db, changes, n)
  {
    SameExcept(db, changes, after, {});
  }

  /** With one object written, exactly when nothing else was moved. */
  lemma OneWritten(db: Database, changes: seq<IfChange>, after: Database, name: string, obj: Object)
    requires StatesSet(db, changes, after) && forall i :: 0 <= i < |changes| ==> !Stops(db, changes[i])
    ensures after[InterfaceKey(name) := obj] == ApplyAll(db, [Write(InterfaceKey(name), obj)]) <==>
            forall n :: n != name ==> Unmoved(db, changes, n)
  {
    var ops := [Write(InterfaceKey(name), obj)];
    assert ops[1..] == [] && ApplyAll(db, ops) == db[InterfaceKey(name) := obj];
    SameExcept(db, changes, after, {InterfaceKey(name)});
    if after[InterfaceKey(name) := obj] == db[InterfaceKey(name) := obj] {
      forall k | k in db && k != InterfaceKey(name) ensures after[k] == db[k] {
        assert after[InterfaceKey(name) := obj][k] == db[InterfaceKey(name) := obj][k];
      }
    }
  }

  /**
   * What the callback leaves in the database is what its commands make of it in VPP if and only if every interface
   * whose admin state it set before the loop ended, other than the one it finally wrote, already had the state
   * last requested for it.
   */
  lemma AllSentIff(db: Database, garbage: bool, changes: seq<IfChange>, accepted: bool)
    ensures Ietf(db, garbage, Verify, changes, accepted).IfOutcome?
    ensures var out := Ietf(db, garbage, Verify, changes, accepted);
            out.db == ApplyAll(db, out.ops) <==>
            forall n :: Written(db, changes, accepted) != Some(n) ==> Unmoved(db, Handled(db, changes), n)
  {
    var s := IetfScan(db, garbage, changes);
    var h := Handled(db, changes);
    FoundStays(db, garbage, changes);
    if |h| < |changes| {
      LeftAtStop(db, garbage, changes);
      NothingWritten(db, h, s.db);
    } else {
      assert h == changes;
      RunsThrough(db, garbage, changes);
      SentAtEnd(db, changes, s, accepted);
    }
  }

  lemma SentAtEnd(db: Database, changes: seq<IfChange>, s: IfScan, accepted: bool)
    requires s.Scanning? && Gathered(changes, s) && StatesSet(db, changes, s.db)
    requires forall i :: 0 <= i < |changes| ==> !Stops(db, changes[i])
    requires s.changed ==> InterfaceKey(s.found) in s.db
    ensures var out := Conclude(s, accepted);
            && out.IfOutcome?
            && (out.db == ApplyAll(db, out.ops) <==>
                forall n :: Written(db, changes, accepted) != Some(n) ==> Unmoved(db, changes, n))
  {
    NothingWritten(db, changes, s.db);
    if s.create && s.builder.name != "" && s.builder.typed {
      OneWritten(db, changes, s.db, s.builder.name, Interface(s.builder.name, s.builder.state));
    } else if !s.create && s.changed {
      OneWritten(db, changes, s.db, s.found, s.db[InterfaceKey(s.found)]);
      assert s.db[InterfaceKey(s.found) := s.db[InterfaceKey(s.found)]] == s.db;
    } else if !s.create {
      forall n ensures Unmoved(db, changes, n) {
        NoStateNoModification(changes, n);
      }
      if s.remove {
        var ops := [Remove(InterfaceKey(s.builder.name))];
        assert ops[1..] == [] && ApplyAll(db, ops) == db - {InterfaceKey(s.builder.name)};
      }
    }
  }

  /** Two admin states set in one batch: success is returned and the first interface's state never reaches VPP. */
  lemma OnlyLastModificationSent(db: Database, garbage: bool, first: string, last: string, on: bool)
    requires HasInterface(db, first) && HasInterface(db, last) && first != last
    requires db[InterfaceKey(first)] != Interface(first, on)
    ensures var out := Ietf(db, garbage, Verify, [IfChange(Modified, first, EnabledLeaf(on)),
                                                  IfChange(Modified, last, EnabledLeaf(on))], true);
            out.IfOutcome? && out.rc == Ok && out.db != ApplyAll(db, out.ops)
  {
    var a, b := IfChange(Modified, first, EnabledLeaf(on)), IfChange(Modified, last, EnabledLeaf(on));
    var cs := [a, b];
    assert cs[..1] == [a] && [a][..0] == [] && cs[1] == b;
    assert forall i :: 0 <= i < |cs| ==> !Stops(db, cs[i]);
    assert HandledCount(db, cs) == 2 && Handled(db, cs) == cs;
    assert LastState(cs, first) == LastState([a], first) == Some(on);
    assert !Unmoved(db, Handled(db, cs), first);
    AllSentIff(db, garbage, cs, true);
    RunsThrough(db, garbage, cs);
    assert Creates([a]) == Creates([]) && Creates(cs) == Creates([a]);
  }

  /** A failed lookup or a refused write after an admin state was set: the state stays in the database, unsent. */
  lemma UnsentWithoutWrite(db: Database, garbage: bool, changes: seq<IfChange>, accepted: bool, name: string)
    requires HandledCount(db, changes) < |changes| || !accepted
    requires !Unmoved(db, Handled(db, changes), name)
    ensures var out := Ietf(db, garbage, Verify, changes, accepted); out.IfOutcome? && out.db != ApplyAll(db, out.ops)
  {
    AllSentIff(db, garbage, changes, accepted);
  }

  /** Every command is on the key of the name built or of an interface of the database. */
  lemma InterfaceCommands(db: Database, garbage: bool, changes: seq<IfChange>, accepted: bool)
    ensures var out := Ietf(db, garbage, Verify, changes, accepted);
            && out.IfOutcome? && |out.ops| <= 1
            && forall op :: op in out.ops ==>
                 op.key.InterfaceKey? && (op.key.name == LastName(changes) || HasInterface(db, op.key.name))
  {
    FoundStays(db, garbage, changes);
    if HandledCount(db, changes) < |changes| {
      LeftAtStop(db, garbage, changes);
    } else {
      RunsThrough(db, garbage, changes);
    }
  }

  // ---------- The two callbacks compared ----------

  /** A deletion that no earlier change keeps the loop from reaching. */
  ghost predicate ReachesDeletion(db: Database, changes: seq<IfChange>) {
    exists i :: 0 <= i < |changes| && changes[i].oper == Deleted && forall j :: 0 <= j < i ==> !Stops(db, changes[j])
  }

  lemma ScanningIffNoStop(db: Database, garbage: bool, changes: seq<IfChange>)
    ensures IetfScan(db, garbage, changes).Scanning? <==> forall j :: 0 <= j < |changes| ==> !Stops(db, changes[j])
  {
    if HandledCount(db, changes) < |changes| {
      LeftAtStop(db, garbage, changes);
    } else {
      RunsThrough(db, garbage, changes);
    }
  }

  lemma ReachStep(db: Database, init: seq<IfChange>, c: IfChange)
    ensures ReachesDeletion(db, init + [c]) <==>
            ReachesDeletion(db, init)
            || (c.oper == Deleted && forall j :: 0 <= j < |init| ==> !Stops(db, init[j]))
  {
    var all := init + [c];
    if ReachesDeletion(db, init) {
      var i :| 0 <= i < |init| && init[i].oper == Deleted && forall j :: 0 <= j < i ==> !Stops(db, init[j]);
      assert all[i] == init[i] && forall j :: 0 <= j < i ==> all[j] == init[j];
    }
    if c.oper == Deleted && forall j :: 0 <= j < |init| ==> !Stops(db, init[j]) {
      assert all[|init|] == c;
    }
    if ReachesDeletion(db, all) {
      var i :| 0 <= i < |all| && all[i].oper == Deleted && forall j :: 0 <= j < i ==> !Stops(db, all[j]);
      assert forall j :: 0 <= j < |init| ==> all[j] == init[j];
    }
  }

  lemma {:induction false} ScansAgree(db: Database, garbage: bool, changes: seq<IfChange>)
    requires forall i :: 0 <= i < |changes| ==> changes[i].itf != ""
    ensures OcScan(db, garbage, changes)
         == if ReachesDeletion(db, changes) then Crashed else IetfScan(db, garbage, changes)
    decreases |changes|
  {
    if changes != [] {
      var init, c := changes[..|changes| - 1], changes[|changes| - 1];
      assert changes == init + [c];
      ScansAgree(db, garbage, init);
      ScanningIffNoStop(db, garbage, init);
      ReachStep(db, init, c);
    }
  }

  /**
   * On batches whose paths carry an interface name, from equal databases, the two callbacks return the same
   * code, issue the same commands and leave the same database, also when a lookup fails part way, if and only
   * if no deletion is reached: there the OpenConfig callback dereferences a missing value.
   */
  lemma CallbacksAgreeIffNoDeletion(db: Database, garbage: bool, changes: seq<IfChange>, accepted: bool)
    requires forall i :: 0 <= i < |changes| ==> changes[i].itf != ""
    ensures OpenConfig(db, garbage, Verify, changes, accepted) == Ietf(db, garbage, Verify, changes, accepted)
            <==> !ReachesDeletion(db, changes)
  {
    ScansAgree(db, garbage, changes);
    FoundStays(db, garbage, changes);
  }

  // ---------- When a batch changes nothing ----------

  /** The admin state the builder ends up with: the last one created, else what it started with. */
  function LastEnabled(garbage: bool, changes: seq<IfChange>): bool {
    if changes == [] then garbage
    else
      var c := changes[|changes| - 1];
      if c.oper == Created && c.leaf.EnabledLeaf? then c.leaf.on else LastEnabled(garbage, changes[..|changes| - 1])
  }

  predicate Deletes(changes: seq<IfChange>) {
    changes != [] &&
    var c := changes[|changes| - 1];
    (c.oper == Deleted && c.leaf.Name?) || Deletes(changes[..|changes| - 1])
  }

  lemma {:induction false} BuilderState(db: Database, garbage: bool, changes: seq<IfChange>)
    ensures var s := IetfScan(db, garbage, changes);
            s.Scanning? ==> s.builder.state == LastEnabled(garbage, changes) && s.remove == Deletes(changes)
    decreases |changes|
  {
    if changes != [] {
      BuilderState(db, garbage, changes[..|changes| - 1]);
    }
  }

  ghost predicate AllUnmoved(db: Database, changes: seq<IfChange>) {
    forall n :: Unmoved(db, changes, n)
  }

  /** A batch that runs to its end leaves the database as it was; all tests are on the batch and the database. */
  ghost predicate IdleAtEnd(db: Database, garbage: bool, changes: seq<IfChange>, accepted: bool) {
    var name := LastName(changes);
    if Creates(changes) && name != "" && Typed(changes) && accepted then
      && InterfaceKey(name) in db && db[InterfaceKey(name)] == Interface(name, LastEnabled(garbage, changes))
      && forall n :: n != name ==> Unmoved(db, changes, n)
    else if Creates(changes) || LastModified(changes).Some? || !Deletes(changes) then AllUnmoved(db, changes)
    else InterfaceKey(name) !in db
  }

  ghost predicate IetfIdle(db: Database, garbage: bool, changes: seq<IfChange>, accepted: bool) {
    if HandledCount(db, changes) < |changes| then AllUnmoved(db, Handled(db, changes))
    else IdleAtEnd(db, garbage, changes, accepted)
  }

  lemma StatesIdleIff(db: Database, changes: seq<IfChange>, after: Database)
    requires StatesSet(db, changes, after) && forall i :: 0 <= i < |changes| ==> !Stops(db, changes[i])
    ensures after == db <==> AllUnmoved(db, changes)
  {
    SameExcept(db, changes, after, {});
  }

  lemma WrittenIdleIff(db: Database, changes: seq<IfChange>, after: Database, name: string, obj: Object)
    requires StatesSet(db, changes, after) && forall i :: 0 <= i < |changes| ==> !Stops(db, changes[i])
    ensures after[InterfaceKey(name) := obj] == db <==>
            && InterfaceKey(name) in db && db[InterfaceKey(name)] == obj
            && forall n :: n != name ==> Unmoved(db, changes, n)
  {
    var key := InterfaceKey(name);
    SameExcept(db, changes, after, {key});
    if after[key := obj] == db {
      forall k | k in db && k != key ensures after[k] == db[k] {
        assert after[key := obj][k] == db[k];
      }
    }
  }

  lemma {:induction false} IdleAtEndIff(db: Database, garbage: bool, changes: seq<IfChange>, accepted: bool)
    requires forall i :: 0 <= i < |changes| ==> !Stops(db, changes[i])
    ensures var out := Conclude(IetfScan(db, garbage, changes), accepted);
            out.IfOutcome? && (out.db == db <==> IdleAtEnd(db, garbage, changes, accepted))
  {
    var s := IetfScan(db, garbage, changes);
    FoundStays(db, garbage, changes);
    RunsThrough(db, garbage, changes);
    BuilderState(db, garbage, changes);
    StatesIdleIff(db, changes, s.db);
    if s.create && s.builder.name != "" && s.builder.typed && accepted {
      WrittenIdleIff(db, changes, s.db, s.builder.name, Interface(s.builder.name, s.builder.state));
    } else if !s.create && s.changed {
      assert s.db[InterfaceKey(s.found) := s.db[InterfaceKey(s.found)]] == s.db;
    } else if !s.create {
      forall n ensures Unmoved(db, changes, n) {
        NoStateNoModification(changes, n);
      }
    }
  }

  /** The callback leaves the database as it was exactly when the batch is idle. */
  lemma IetfIdleIff(db: Database, garbage: bool, changes: seq<IfChange>, accepted: bool)
    ensures var out := Ietf(db, garbage, Verify, changes, accepted);
            out.IfOutcome? && (out.db == db <==> IetfIdle(db, garbage, changes, accepted))
  {
    if HandledCount(db, changes) < |changes| {
      LeftAtStop(db, garbage, changes);
      StatesIdleIff(db, Handled(db, changes), IetfScan(db, garbage, changes).db);
    } else {
      IdleAtEndIff(db, garbage, changes, accepted);
    }
  }

  /** What ends the OpenConfig loop: a deletion, a missing name, or what ends the other one. */
  predicate OcStops(db: Database, c: IfChange) {
    c.oper == Deleted || c.itf == "" || Stops(db, c)
  }

  function OcHandledCount(db: Database, changes: seq<IfChange>): (n: nat)
    ensures n <= |changes| && (n < |changes| ==> OcStops(db, changes[n]))
    ensures forall i :: 0 <= i < n ==> !OcStops(db, changes[i])
  {
    if changes == [] || OcStops(db, changes[0]) then 0 else 1 + OcHandledCount(db, changes[1..])
  }

  ghost predicate OcIdle(db: Database, garbage: bool, changes: seq<IfChange>, accepted: bool) {
    var n := OcHandledCount(db, changes);
    if n < |changes| then changes[n].oper != Deleted && AllUnmoved(db, changes[..n])
    else IdleAtEnd(db, garbage, changes, accepted)
  }

  /** The OpenConfig loop as far as nothing ends it is the other one. */
  lemma OcRunsThrough(db: Database, garbage: bool, changes: seq<IfChange>)
    requires forall i :: 0 <= i < |changes| ==> !OcStops(db, changes[i])
    ensures OcScan(db, garbage, changes) == IetfScan(db, garbage, changes)
  {
    ScansAgree(db, garbage, changes);
  }

  lemma OcStopStep(db: Database, s: IfScan, c: IfChange)
    requires s.Scanning? && s.db.Keys == db.Keys && OcStops(db, c)
    ensures var t := OcStep(s, c); if c.oper == Deleted then t.Crashed? else t.Left? && t.db == s.db
  {
    assert HasInterface(s.db, c.itf) <==> HasInterface(db, c.itf);
  }

  lemma {:induction false} OcLeftAtStop(db: Database, garbage: bool, changes: seq<IfChange>)
    requires OcHandledCount(db, changes) < |changes|
    ensures var n, s := OcHandledCount(db, changes), OcScan(db, garbage, changes);
            if changes[n].oper == Deleted then s.Crashed? else s.Left? && StatesSet(db, changes[..n], s.db)
  {
    var n := OcHandledCount(db, changes);
    var h := changes[..n];
    OcRunsThrough(db, garbage, h);
    RunsThrough(db, garbage, h);
    assert changes[..n + 1][..n] == h && changes[..n + 1][n] == changes[n];
    OcStopStep(db, OcScan(db, garbage, h), changes[n]);
    OcStaysLeft(db, garbage, changes, n + 1);
  }

  lemma {:induction false} OcIdleIff(db: Database, garbage: bool, changes: seq<IfChange>, accepted: bool)
    ensures var out := OpenConfig(db, garbage, Verify, changes, accepted);
            out.IfOutcome? && out.db == db <==> OcIdle(db, garbage, changes, accepted)
  {
    var n := OcHandledCount(db, changes);
    if n < |changes| {
      OcLeftAtStop(db, garbage, changes);
      if changes[n].oper != Deleted {
        StatesIdleIff(db, changes[..n], OcScan(db, garbage, changes).db);
      }
    } else {
      OcRunsThrough(db, garbage, changes);
      IdleAtEndIff(db, garbage, changes, accepted);
    }
  }

  // ---------- Exactly what a call does ----------

  /** The code of a batch, by the batch, the interfaces there are and the answer to the write. */
  function IetfCode(db: Database, changes: seq<IfChange>, accepted: bool): Code {
    var n := HandledCount(db, changes);
    if n < |changes| then if changes[n].oper == Moved then Unsupported else OperationFailed
    else EndCode(changes, accepted)
  }

  /** The code of a batch that nothing stops. */
  function EndCode(changes: seq<IfChange>, accepted: bool): Code {
    if Creates(changes) && (LastName(changes) == "" || !Typed(changes)) then InvalArg
    else if (Creates(changes) || LastModified(changes).Some?) && !accepted then OperationFailed
    else Ok
  }

  /** The command of a batch that nothing stops: creation before modification before deletion. */
  function EndCommands(garbage: bool, changes: seq<IfChange>, accepted: bool): seq<Op> {
    var name := LastName(changes);
    if EndCode(changes, accepted) != Ok then []
    else if Creates(changes) then [Write(InterfaceKey(name), Interface(name, LastEnabled(garbage, changes)))]
    else match LastModified(changes)
      case Some(n) =>
        var on := match LastState(changes, n) case Some(up) => up case None => false;
        [Write(InterfaceKey(n), Interface(n, on))]
      case None => if Deletes(changes) then [Remove(InterfaceKey(name))] else []
  }

  /** The database is the one with the states last requested, as the commands change it. */
  ghost predicate SetThenSent(db: Database, changes: seq<IfChange>, ops: seq<Op>, after: Database) {
    exists mid :: StatesSet(db, changes, mid) && after == ApplyAll(mid, ops)
  }

  lemma {:induction false} LastModifiedHasState(changes: seq<IfChange>)
    requires LastModified(changes).Some?
    ensures LastState(changes, LastModified(changes).value).Some?
  {
    if !SetsState(changes[|changes| - 1]) {
      LastModifiedHasState(changes[..|changes| - 1]);
    }
  }

  lemma OneCommand(db: Database, op: Op)
    ensures ApplyAll(db, [op]) == ObjectModel.Apply(db, op)
  {
    assert [op][1..] == [];
  }

  lemma {:induction false} EndExact(db: Database, garbage: bool, changes: seq<IfChange>, accepted: bool)
    requires forall i :: 0 <= i < |changes| ==> !Stops(db, changes[i])
    ensures var out := Conclude(IetfScan(db, garbage, changes), accepted);
            && out.IfOutcome? && out.rc == EndCode(changes, accepted)
            && out.ops == EndCommands(garbage, changes, accepted) && SetThenSent(db, changes, out.ops, out.db)
  {
    var s := IetfScan(db, garbage, changes);
    var out := Conclude(s, accepted);
    FoundStays(db, garbage, changes);
    RunsThrough(db, garbage, changes);
    BuilderState(db, garbage, changes);
    if s.changed {
      LastModifiedHasState(changes);
    }
    if out.ops != [] {
      assert out.ops == [out.ops[0]];
      OneCommand(s.db, out.ops[0]);
    }
    assert out.db == ApplyAll(s.db, out.ops);
  }

  /**
   * Any call on any batch: the code, the one command if any, and the database, which is the one with the states
   * requested before the loop ended, changed by that command.
   */
  lemma {:induction false} IetfExact(db: Database, garbage: bool, changes: seq<IfChange>, accepted: bool)
    ensures var out, n := Ietf(db, garbage, Verify, changes, accepted), HandledCount(db, changes);
            && out.IfOutcome? && out.rc == IetfCode(db, changes, accepted)
            && out.ops == (if n < |changes| then [] else EndCommands(garbage, changes, accepted))
            && SetThenSent(db, Handled(db, changes), out.ops, out.db)
  {
    if HandledCount(db, changes) < |changes| {
      StopCode(db, garbage, changes);
      LeftAtStop(db, garbage, changes);
      var after := IetfScan(db, garbage, changes).db;
      assert after == ApplyAll(after, []);
    } else {
      assert Handled(db, changes) == changes;
      EndExact(db, garbage, changes, accepted);
    }
  }

  lemma StopStep(db: Database, s: IfScan, c: IfChange)
    requires s.Scanning? && s.db.Keys == db.Keys && Stops(db, c)
    ensures IetfStep(s, c) == Left(if c.oper == Moved then Unsupported else OperationFailed, s.db)
  {
    assert HasInterface(s.db, c.itf) <==> HasInterface(db, c.itf);
  }

  lemma {:induction false} StopCode(db: Database, garbage: bool, changes: seq<IfChange>)
    requires HandledCount(db, changes) < |changes|
    ensures var s, n := IetfScan(db, garbage, changes), HandledCount(db, changes);
            s.Left? && s.rc == if changes[n].oper == Moved then Unsupported else OperationFailed
  {
    var n := HandledCount(db, changes);
    var h := changes[..n];
    RunsThrough(db, garbage, h);
    assert changes[..n + 1][..n] == h && changes[..n + 1][n] == changes[n];
    StopStep(db, IetfScan(db, garbage, h), changes[n]);
    StaysLeft(db, garbage, changes, n + 1);
  }

  /** The code of the OpenConfig loop at the change that ends it. */
  function OcStopCode(c: IfChange): Code {
    if c.itf == "" then InvalArg else if c.oper == Moved then Unsupported else OperationFailed
  }

  lemma OcStepCode(db: Database, s: IfScan, c: IfChange)
    requires s.Scanning? && s.db.Keys == db.Keys && OcStops(db, c) && c.oper != Deleted
    ensures OcStep(s, c) == Left(OcStopCode(c), s.db)
  {
    assert HasInterface(s.db, c.itf) <==> HasInterface(db, c.itf);
  }

  /** The same for OpenConfig: a deletion that is reached crashes, a missing name is an invalid argument. */
  lemma {:induction false} OcExact(db: Database, garbage: bool, changes: seq<IfChange>, accepted: bool)
    ensures var out, n := OpenConfig(db, garbage, Verify, changes, accepted), OcHandledCount(db, changes);
            && (out.Crash? <==> n < |changes| && changes[n].oper == Deleted)
            && (out.IfOutcome? && n < |changes| ==>
                  && out.rc == OcStopCode(changes[n]) && out.ops == [] && StatesSet(db, changes[..n], out.db))
            && (n == |changes| ==>
                  && out.rc == EndCode(changes, accepted) && out.ops == EndCommands(garbage, changes, accepted)
                  && SetThenSent(db, changes, out.ops, out.db))
  {
    var n := OcHandledCount(db, changes);
    var h := changes[..n];
    OcRunsThrough(db, garbage, h);
    if n < |changes| {
      OcLeftAtStop(db, garbage, changes);
      if changes[n].oper != Deleted {
        RunsThrough(db, garbage, h);
        assert changes[..n + 1][..n] == h && changes[..n + 1][n] == changes[n];
        OcStepCode(db, OcScan(db, garbage, h), changes[n]);
        OcStaysLeft(db, garbage, changes, n + 1);
      }
    } else {
      assert h == changes;
      EndExact(db, garbage, changes, accepted);
    }
  }
}
