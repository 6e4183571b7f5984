/**
 * The address callback of src/plugins/ietf/ietf_interface.cpp: one loop over change events, with
 * flags, addresses and lengths that survive from one event to the next.
 */
module AddressChange {
  import opened Wrappers
  import opened Prefix
  import opened ObjectModel
  import Netmask

  datatype Event = Verify | Apply | Abort | Enabled

  datatype Oper = Created | Modified | Deleted | Moved

  type Byte = n: nat | n < 256

  /** A changed node, by its type and node name. */
  datatype Node = ListNode | Ip(text: string) | PrefixLength(length: Byte) | Mask(text: string) | OtherLeaf

  /**
   * One change: its operation, the interface name in its xpath, the old and the new value.
   * `accepted` is what OM::write answers if it is called while this change is handled.
   */
  datatype Change = Change(oper: Oper, itf: string, old_: Option<Node>, new_: Option<Node>, accepted: bool)

  /** The variables the loop carries from change to change. */
  datatype Cursor = Cursor(create: bool, del: bool, oldAddr: string, oldLen: nat, newAddr: string, newLen: nat)

  const START := Cursor(false, false, "", 0, "", 0)

  /** parse_interface_ipv46_address; `threw` tells that it left by an exception. */
  function ParseNode(node: Option<Node>, addr: string, length: nat): (string, nat, bool) {
    match node
    case None => (addr, length, true)
    case Some(ListNode) => ("", length, false)
    case Some(Ip(text)) => (text, length, false)
    case Some(PrefixLength(n)) => (addr, n, false)
    case Some(Mask(text)) =>
      (match Netmask.LengthOfMaskText(text)
       case Some(n) => (addr, n, false)
       case None => (addr, length, true))
    case Some(OtherLeaf) => (addr, length, false)
  }

  function SetOld(cur: Cursor, node: Option<Node>): Cursor {
    var (a, n, _) := ParseNode(node, cur.oldAddr, cur.oldLen);
    cur.(oldAddr := a, oldLen := n)
  }

  function SetNew(cur: Cursor, node: Option<Node>): Cursor {
    var (a, n, _) := ParseNode(node, cur.newAddr, cur.newLen);
    cur.(newAddr := a, newLen := n)
  }

  /** What one change does to the carried variables. */
  function Absorb(cur: Cursor, c: Change): Cursor {
    match c.oper
    case Created => SetNew(cur.(create := true), c.new_)
    case Deleted => SetOld(cur.(del := true), c.old_)
    case Modified =>
      var both := cur.(create := true, del := true);
      if ParseNode(c.old_, cur.oldAddr, cur.oldLen).2 then both
      else SetNew(SetOld(both, c.old_), c.new_)
    case Moved => cur
  }

  /** The commands issued and the code returned. */
  datatype Outcome = Outcome(ops: seq<Op>, rc: Code)

  /** ipv46_config_add_remove */
  function AddRemove(canon: Notation, db: Database, itf: string, addr: string, length: nat, add: bool, accepted: bool)
    : Outcome
  {
    if !HasInterface(db, itf) then Outcome([], InvalArg)
    else if canon(addr).None? || (add && !accepted) then Outcome([], OperationFailed)
    else
      var a := canon(addr).value;
      Outcome([if add then Write(BindingKey(itf, a, length), L3(itf, a, length))
               else Remove(BindingKey(itf, a, length))], Ok)
  }

  /** The removal of the old binding, when there is one. */
  function RemoveOld(canon: Notation, db: Database, cur: Cursor, itf: string, rc: Code): Outcome {
    if cur.del && cur.oldAddr != "" then AddRemove(canon, db, itf, cur.oldAddr, cur.oldLen, false, true)
    else Outcome([], rc)
  }

  /** The addition of the new binding, when there is one. */
  function AddNew(canon: Notation, db: Database, cur: Cursor, itf: string, accepted: bool, rc: Code): Outcome {
    if cur.create && cur.newAddr != "" then AddRemove(canon, db, itf, cur.newAddr, cur.newLen, true, accepted)
    else Outcome([], rc)
  }

  /** The two actions at the end of the loop body. */
  function Act(canon: Notation, db: Database, cur: Cursor, itf: string, accepted: bool, rc: Code): Outcome {
    var removal := RemoveOld(canon, db, cur, itf, rc);
    var addition := AddNew(canon, ApplyAll(db, removal.ops), cur, itf, accepted, removal.rc);
    Outcome(removal.ops + addition.ops, addition.rc)
  }

  /** The whole loop, from a database, carried variables and the code of the last action. */
  function Run(canon: Notation, db: Database, cur: Cursor, rc: Code, changes: seq<Change>): Outcome
    decreases |changes|
  {
    if changes == [] then Outcome([], rc)
    else if changes[0].itf == "" then Outcome([], OperationFailed)
    else
      var next := Absorb(cur, changes[0]);
      var now := Act(canon, db, next, changes[0].itf, changes[0].accepted, rc);
      var rest := Run(canon, ApplyAll(db, now.ops), next, now.rc, changes[1..]);
      Outcome(now.ops + rest.ops, rest.rc)
  }

  /** The callback: nothing on APPLY, no iteration on ABORT, the loop on VERIFY and ENABLED. */
  function Callback(canon: Notation, db: Database, event: Event, changes: seq<Change>): Outcome {
    match event
    case Apply => Outcome([], Ok)
    case Abort => Outcome([], Ok)
    case Verify => Run(canon, db, START, Ok, changes)
    case Enabled => Run(canon, db, START, Ok, changes)
  }

  // ---------- The imperative callback ----------

  method ParseAddress(node: Option<Node>, addr: string, length: nat) returns (a: string, n: nat, threw: bool)
    ensures (a, n, threw) == ParseNode(node, addr, length)
  {
    a, n, threw := addr, length, false;
    if node.None? {
      threw := true;
    } else if node.value.ListNode? {
      a := "";
    } else if node.value.Ip? {
      a := node.value.text;
    } else if node.value.PrefixLength? {
      n := node.value.length;
    } else if node.value.Mask? {
      var q := ParseQuad(node.value.text);
      if q.Some? {
        n := Netmask.NetmaskToPlen(q.value);
      } else {
        threw := true;
      }
    }
  }

  method ConfigAddRemove(canon: Notation, om: Om, itf: string, addr: string, length: nat, add: bool, accepted: bool)
    returns (rc: Code)
    modifies om
    ensures var out := AddRemove(canon, old(om.db), itf, addr, length, add, accepted);
            rc == out.rc && om.db == ApplyAll(old(om.db), out.ops) && om.sent == old(om.sent) + out.ops
  {
    if !HasInterface(om.db, itf) {
      return InvalArg;
    }
    var a := canon(addr);
    if a.None? {
      return OperationFailed;
    }
    var key := BindingKey(itf, a.value, length);
    if add {
      var ok := om.Write(key, L3(itf, a.value, length), accepted);
      rc := if ok then Ok else OperationFailed;
    } else {
      om.Remove(key);
      rc := Ok;
    }
  }

  /** The switch of the loop body: flags, then the node into the carried variables. */
  method AbsorbChange(cur: Cursor, c: Change) returns (next: Cursor)
    ensures next == Absorb(cur, c)
  {
    var create, del := cur.create, cur.del;
    var oldAddr, newAddr, oldLen, newLen := cur.oldAddr, cur.newAddr, cur.oldLen, cur.newLen;
    var threw;
    match c.oper {
      case Created =>
        create := true;
        newAddr, newLen, threw := ParseAddress(c.new_, newAddr, newLen);
      case Modified =>
        create, del := true, true;
        oldAddr, oldLen, threw := ParseAddress(c.old_, oldAddr, oldLen);
        if !threw {
          newAddr, newLen, threw := ParseAddress(c.new_, newAddr, newLen);
        }
      case Deleted =>
        del := true;
        oldAddr, oldLen, threw := ParseAddress(c.old_, oldAddr, oldLen);
      case Moved =>
    }
    next := Cursor(create, del, oldAddr, oldLen, newAddr, newLen);
  }

  method RemoveOldBinding(canon: Notation, om: Om, cur: Cursor, itf: string, lastRc: Code) returns (rc: Code)
    modifies om
    ensures var out := RemoveOld(canon, old(om.db), cur, itf, lastRc);
            rc == out.rc && om.db == ApplyAll(old(om.db), out.ops) && om.sent == old(om.sent) + out.ops
  {
    rc := lastRc;
    if cur.del && cur.oldAddr != "" {
      rc := ConfigAddRemove(canon, om, itf, cur.oldAddr, cur.oldLen, false, true);
    }
  }

  method AddNewBinding(canon: Notation, om: Om, cur: Cursor, itf: string, accepted: bool, lastRc: Code)
    returns (rc: Code)
    modifies om
    ensures var out := AddNew(canon, old(om.db), cur, itf, accepted, lastRc);
            rc == out.rc && om.db == ApplyAll(old(om.db), out.ops) && om.sent == old(om.sent) + out.ops
  {
    rc := lastRc;
    if cur.create && cur.newAddr != "" {
      rc := ConfigAddRemove(canon, om, itf, cur.newAddr, cur.newLen, true, accepted);
    }
  }

  /** The two calls that end the loop body. */
  method ActOn(canon: Notation, om: Om, cur: Cursor, itf: string, accepted: bool, lastRc: Code) returns (rc: Code)
    modifies om
    ensures var now := Act(canon, old(om.db), cur, itf, accepted, lastRc);
            rc == now.rc && om.db == ApplyAll(old(om.db), now.ops) && om.sent == old(om.sent) + now.ops
  {
    ghost var removal := RemoveOld(canon, om.db, cur, itf, lastRc);
    rc := RemoveOldBinding(canon, om, cur, itf, lastRc);
    ghost var addition := AddNew(canon, om.db, cur, itf, accepted, rc);
    rc := AddNewBinding(canon, om, cur, itf, accepted, rc);
    ApplyAllConcat(old(om.db), removal.ops, addition.ops);
    assert old(om.sent) + removal.ops + addition.ops == old(om.sent) + (removal.ops + addition.ops);
  }

  /** The commands already issued followed by those still to come are those of the whole batch. */
  ghost predicate Continues(whole: Outcome, done: seq<Op>, rest: Outcome) {
    whole.ops == done + rest.ops && whole.rc == rest.rc
  }

  lemma ContinueAfter(whole: Outcome, done: seq<Op>, now: seq<Op>, rest: Outcome)
    requires Continues(whole, done, Outcome(now + rest.ops, rest.rc))
    ensures Continues(whole, done + now, rest)
  {
  }

  /** One more change handled: the commands issued so far grow by those of that change. */
  lemma {:induction false} AfterStep(canon: Notation, db: Database, whole: Outcome, done: seq<Op>, cur: Cursor,
                                     rc: Code,
                  changes: seq<Change>)
    requires changes != [] && changes[0].itf != ""
    requires Continues(whole, done, Run(canon, db, cur, rc, changes))
    ensures var next := Absorb(cur, changes[0]);
            var now := Act(canon, db, next, changes[0].itf, changes[0].accepted, rc);
            Continues(whole, done + now.ops, Run(canon, ApplyAll(db, now.ops), next, now.rc, changes[1..]))
  {
    var next := Absorb(cur, changes[0]);
    var now := Act(canon, db, next, changes[0].itf, changes[0].accepted, rc);
    ContinueAfter(whole, done, now.ops, Run(canon, ApplyAll(db, now.ops), next, now.rc, changes[1..]));
  }

  lemma {:induction false} AtEnd(canon: Notation, db: Database, whole: Outcome, done: seq<Op>, cur: Cursor, rc: Code,
                                 changes: seq<Change>)
    requires Continues(whole, done, Run(canon, db, cur, rc, changes))
    ensures changes == [] ==> whole == Outcome(done, rc)
    ensures changes != [] && changes[0].itf == "" ==> whole == Outcome(done, OperationFailed)
  {
  }

  /** The loop body on the first change still to do; `done` are the commands issued before it. */
  method HandleChange(canon: Notation, om: Om, cur: Cursor, lastRc: Code, todo: seq<Change>,
                      ghost db0: Database, ghost sent0: seq<Op>, ghost whole: Outcome, ghost done: seq<Op>)
    returns (next: Cursor, rc: Code, ghost more: seq<Op>)
    requires todo != [] && todo[0].itf != ""
    requires om.db == ApplyAll(db0, done) && om.sent == sent0 + done
    requires Continues(whole, done, Run(canon, om.db, cur, lastRc, todo))
    modifies om
    ensures om.db == ApplyAll(db0, more) && om.sent == sent0 + more
    ensures Continues(whole, more, Run(canon, om.db, next, rc, todo[1..]))
  {
    var c := todo[0];
    ghost var now := Act(canon, om.db, Absorb(cur, c), c.itf, c.accepted, lastRc);
    AfterStep(canon, om.db, whole, done, cur, lastRc, todo);
    ApplyAllConcat(db0, done, now.ops);
    more := done + now.ops;
    next := AbsorbChange(cur, c);
    rc := ActOn(canon, om, next, c.itf, c.accepted, lastRc);
  }

  /** The loop over the changes. */
  method ProcessChanges(canon: Notation, om: Om, changes: seq<Change>) returns (rc: Code)
    modifies om
    ensures var out := Run(canon, old(om.db), START, Ok, changes);
            rc == out.rc && om.db == ApplyAll(old(om.db), out.ops) && om.sent == old(om.sent) + out.ops
  {
    ghost var whole := Run(canon, om.db, START, Ok, changes);
    ghost var done: seq<Op> := [];
    var cur := START;
    rc := Ok;
    var todo := changes;
    while todo != []
      invariant om.db == ApplyAll(old(om.db), done) && om.sent == old(om.sent) + done
      invariant Continues(whole, done, Run(canon, om.db, cur, rc, todo))
      decreases |todo|
    {
      if todo[0].itf == "" {
        AtEnd(canon, om.db, whole, done, cur, rc, todo);
        return OperationFailed;
      }
      cur, rc, done := HandleChange(canon, om, cur, rc, todo, old(om.db), old(om.sent), whole, done);
      todo := todo[1..];
    }
    AtEnd(canon, om.db, whole, done, cur, rc, todo);
  }

  /**
   * ietf_interface_ipv46_address_change_cb. The database and the command stream end up exactly as the
   * specification function says; the lemmas of AddressBatch are about that function.
   */
  method AddressChangeCallback(canon: Notation, om: Om, event: Event, changes: seq<Change>) returns (rc: Code)
    modifies om
    ensures var out := Callback(canon, old(om.db), event, changes);
            rc == out.rc && om.db == ApplyAll(old(om.db), out.ops) && om.sent == old(om.sent) + out.ops
  {
    rc := Ok;
    if event == Event.Apply {
      return;
    }
    if event != Abort {
      rc := ProcessChanges(canon, om, changes);
    }
  }
}
