/**
 * The variables of the address loop read off the nodes of the changes, without following the loop: which node
 * set each of them last. With them, the effect and the code of any batch of changes, modifications included.
 */
module AddressNodes {
  import opened Wrappers
  import opened Prefix
  import opened ObjectModel
  import opened AddressChange
  import opened AddressBatch
  import opened AddressEffects
  import opened AddressOrder
  import Netmask

  // ---------- Which node counts ----------

  /** A value that is there and, if it is a netmask, an address. */
  predicate Readable(node: Option<Node>) {
    node.Some? && (node.value.Mask? ==> ParseQuad(node.value.text).Some?)
  }

  /**
   * The node a change contributes to the new side (or, with false, to the old side). Creations and modifications
   * have a new value, deletions and modifications an old one; a modification whose old value is not readable is
   * abandoned before its new value is read.
   */
  function NodeOf(c: Change, create: bool): Option<Node> {
    match c.oper
    case Created => if create then c.new_ else None
    case Deleted => if create then None else c.old_
    case Modified => if !create then c.old_ else if Readable(c.old_) then c.new_ else None
    case Moved => None
  }

  /** An `ip` node sets the address, a list node clears it. */
  function AddressFrom(node: Option<Node>, before: string): string {
    match node
    case Some(ListNode) => ""
    case Some(Ip(text)) => text
    case _ => before
  }

  /** A `prefix-length`, or a netmask that is one, sets the length. */
  function LengthFrom(node: Option<Node>, before: nat): nat {
    match node
    case Some(PrefixLength(n)) => n
    case Some(Mask(text)) => (match Netmask.LengthOfMaskText(text) case Some(n) => n case None => before)
    case _ => before
  }

  function AddressAfter(changes: seq<Change>, create: bool): string {
    if changes == [] then ""
    else AddressFrom(NodeOf(changes[|changes| - 1], create), AddressAfter(changes[..|changes| - 1], create))
  }

  function LengthAfter(changes: seq<Change>, create: bool): nat {
    if changes == [] then 0
    else LengthFrom(NodeOf(changes[|changes| - 1], create), LengthAfter(changes[..|changes| - 1], create))
  }

  /** A modification counts for both sides. */
  predicate Flags(oper: Oper, create: bool) {
    oper == Modified || oper == if create then Created else Deleted
  }

  predicate Flagged(changes: seq<Change>, create: bool) {
    exists i :: 0 <= i < |changes| && Flags(changes[i].oper, create)
  }

  function Absorbed(cur: Cursor, changes: seq<Change>): Cursor
    decreases |changes|
  {
    if changes == [] then cur else Absorbed(Absorb(cur, changes[0]), changes[1..])
  }

  lemma {:induction false} AbsorbedSnoc(cur: Cursor, a: seq<Change>, c: Change)
    ensures Absorbed(cur, a + [c]) == Absorb(Absorbed(cur, a), c)
    decreases |a|
  {
    if a == [] {
      assert a + [c] == [c] && [c][1..] == [];
    } else {
      assert (a + [c])[1..] == a[1..] + [c];
      AbsorbedSnoc(Absorb(cur, a[0]), a[1..], c);
    }
  }

  lemma AbsorbSides(cur: Cursor, c: Change)
    ensures Absorb(cur, c)
         == Cursor(cur.create || Flags(c.oper, true), cur.del || Flags(c.oper, false),
                   AddressFrom(NodeOf(c, false), cur.oldAddr), LengthFrom(NodeOf(c, false), cur.oldLen),
                   AddressFrom(NodeOf(c, true), cur.newAddr), LengthFrom(NodeOf(c, true), cur.newLen))
  {
  }

  lemma FlaggedSnoc(init: seq<Change>, c: Change, create: bool)
    ensures Flagged(init + [c], create) <==> Flagged(init, create) || Flags(c.oper, create)
  {
    assert (init + [c])[|init|] == c;
    if i :| 0 <= i < |init| && Flags(init[i].oper, create) {
      assert (init + [c])[i] == init[i];
    }
  }

  /** The carried variables of any batch are what its nodes say. */
  lemma {:induction false} CarriedByNodes(changes: seq<Change>)
    ensures Absorbed(START, changes)
         == Cursor(Flagged(changes, true), Flagged(changes, false), AddressAfter(changes, false),
                   LengthAfter(changes, false), AddressAfter(changes, true), LengthAfter(changes, true))
  {
    if changes != [] {
      var init, c := changes[..|changes| - 1], changes[|changes| - 1];
      assert changes == init + [c];
      CarriedByNodes(init);
      AbsorbedSnoc(START, init, c);
      AbsorbSides(Absorbed(START, init), c);
      FlaggedSnoc(init, c, true);
      FlaggedSnoc(init, c, false);
    }
  }

  /** An address is carried only on a side that is flagged. */
  lemma {:induction false} AddressFlagged(changes: seq<Change>, create: bool)
    ensures AddressAfter(changes, create) != "" ==> Flagged(changes, create)
  {
    if changes != [] {
      var init, c := changes[..|changes| - 1], changes[|changes| - 1];
      assert changes == init + [c];
      AddressFlagged(init, create);
      FlaggedSnoc(init, c, create);
    }
  }

  // ---------- The effect of any batch ----------

  /**
   * What the k-th change does to a key: it binds the last new address under the last new length on its interface, if
   * the write is accepted, and else removes the last old address under the last old length.
   */
  function NodeVerdict(canon: Notation, db: Database, changes: seq<Change>, k: nat, key: Key): Verdict
    requires k < |changes|
  {
    var c, upto := changes[k], changes[..k + 1];
    if !HasInterface(db, c.itf) then Leaves
    else if c.accepted && KeyOf(canon, c.itf, AddressAfter(upto, true), LengthAfter(upto, true)) == Some(key) then Puts
    else if KeyOf(canon, c.itf, AddressAfter(upto, false), LengthAfter(upto, false)) == Some(key) then Takes
    else Leaves
  }

  /** The verdict of the last of the first n changes that touches the key. */
  function LastNodeVerdict(canon: Notation, db: Database, changes: seq<Change>, n: nat, key: Key): Verdict
    requires n <= |changes|
  {
    if n == 0 then Leaves
    else Then(LastNodeVerdict(canon, db, changes, n - 1, key), NodeVerdict(canon, db, changes, n - 1, key))
  }

  lemma {:induction false} LastVerdictSnoc(canon: Notation, db: Database, cur: Cursor, a: seq<Change>, c: Change,
                                           key: Key)
    ensures LastVerdict(canon, db, cur, a + [c], key)
         == Then(LastVerdict(canon, db, cur, a, key),
                 ChangeVerdict(canon, db, Absorb(Absorbed(cur, a), c), c, key))
    decreases |a|
  {
    if a == [] {
      assert a + [c] == [c] && [c][1..] == [];
    } else {
      assert (a + [c])[1..] == a[1..] + [c];
      LastVerdictSnoc(canon, db, Absorb(cur, a[0]), a[1..], c, key);
    }
  }

  lemma {:induction false} VerdictByNodes(canon: Notation, db: Database, changes: seq<Change>, n: nat, key: Key)
    requires n <= |changes|
    ensures LastVerdict(canon, db, START, changes[..n], key) == LastNodeVerdict(canon, db, changes, n, key)
  {
    if n > 0 {
      VerdictByNodes(canon, db, changes, n - 1, key);
      assert changes[..n] == changes[..n - 1] + [changes[n - 1]];
      LastVerdictSnoc(canon, db, START, changes[..n - 1], changes[n - 1], key);
      AbsorbedSnoc(START, changes[..n - 1], changes[n - 1]);
      CarriedByNodes(changes[..n]);
    }
  }

  /**
   * The exact effect of every batch of changes, read off their nodes: of the changes before the first without a
   * name, the last that touches a key decides it, and a key that none touches keeps its object.
   */
  lemma {:induction false} LastNodesDecide(canon: Notation, db: Database, changes: seq<Change>, key: Key)
    requires canon("").None?
    ensures var cs := Heard(changes);
            At(DatabaseAfter(canon, db, changes), key)
            == Decide(LastNodeVerdict(canon, db, cs, |cs|, key), key, At(db, key))
  {
    var cs := Heard(changes);
    LastTouchDecides(canon, db, changes, key);
    VerdictByNodes(canon, db, cs, |cs|, key);
    assert cs[..|cs|] == cs;
  }

  // ---------- The code of any batch ----------

  /** The code of the last action among the first n changes; Ok when there is none. */
  function LastCodeByNodes(canon: Notation, db: Database, changes: seq<Change>, n: nat): Code
    requires n <= |changes|
  {
    if n == 0 then Ok
    else
      var c, upto := changes[n - 1], changes[..n];
      var newest, oldest := AddressAfter(upto, true), AddressAfter(upto, false);
      if newest == "" && oldest == "" then LastCodeByNodes(canon, db, changes, n - 1)
      else LastActionCode(canon, db, newest, oldest, c.itf, c.accepted)
  }

  lemma {:induction false} BatchCodeSnoc(canon: Notation, db: Database, cur: Cursor, rc: Code, a: seq<Change>,
                                         c: Change)
    ensures BatchCode(canon, db, cur, rc, a + [c])
         == ActCode(canon, db, Absorb(Absorbed(cur, a), c), c.itf, c.accepted, BatchCode(canon, db, cur, rc, a))
    decreases |a|
  {
    if a == [] {
      assert a + [c] == [c] && [c][1..] == [];
    } else {
      assert (a + [c])[1..] == a[1..] + [c];
      var next := Absorb(cur, a[0]);
      BatchCodeSnoc(canon, db, next, ActCode(canon, db, next, a[0].itf, a[0].accepted, rc), a[1..], c);
    }
  }

  lemma {:induction false} CodeByNodes(canon: Notation, db: Database, changes: seq<Change>, n: nat)
    requires n <= |changes|
    ensures BatchCode(canon, db, START, Ok, changes[..n]) == LastCodeByNodes(canon, db, changes, n)
  {
    if n > 0 {
      var init, c, upto := changes[..n - 1], changes[n - 1], changes[..n];
      CodeByNodes(canon, db, changes, n - 1);
      assert upto == init + [c];
      BatchCodeSnoc(canon, db, START, Ok, init, c);
      AbsorbedSnoc(START, init, c);
      CarriedByNodes(upto);
      AddressFlagged(upto, true);
      AddressFlagged(upto, false);
      var cur := Absorbed(START, upto);
      if cur.newAddr != "" || cur.oldAddr != "" {
        ActCodeIs(canon, db, cur, c.itf, c.accepted, BatchCode(canon, db, START, Ok, init));
      }
    }
  }

  lemma {:induction false} NamelessCode(canon: Notation, db: Database, cur: Cursor, rc: Code, changes: seq<Change>)
    requires |Heard(changes)| < |changes|
    ensures Run(canon, db, cur, rc, changes).rc == OperationFailed
    decreases |changes|
  {
    if changes[0].itf != "" {
      var next, c := Absorb(cur, changes[0]), changes[0];
      var now := Act(canon, db, next, c.itf, c.accepted, rc);
      NamelessCode(canon, ApplyAll(db, now.ops), next, now.rc, changes[1..]);
    }
  }

  lemma {:induction false} HeardAll(changes: seq<Change>)
    requires |Heard(changes)| == |changes|
    ensures Heard(changes) == changes
  {
    if changes != [] {
      HeardAll(changes[1..]);
    }
  }

  /** The code of every batch of changes: a failure for a missing name, else that of the last action. */
  lemma {:induction false} CodeOfAnyBatch(canon: Notation, db: Database, changes: seq<Change>)
    ensures Callback(canon, db, Verify, changes).rc
         == if |Heard(changes)| < |changes| then OperationFailed
            else LastCodeByNodes(canon, db, changes, |changes|)
  {
    HeardShorter(changes);
    if |Heard(changes)| < |changes| {
      NamelessCode(canon, db, START, Ok, changes);
    } else {
      HeardAll(changes);
      RunCode(canon, db, db, START, Ok, changes);
      CodeByNodes(canon, db, changes, |changes|);
      assert changes[..|changes|] == changes;
    }
  }

  lemma {:induction false} HeardShorter(changes: seq<Change>)
    ensures |Heard(changes)| <= |changes|
  {
    if changes != [] {
      HeardShorter(changes[1..]);
    }
  }

  // ---------- A modification after entries ----------

  lemma {:induction false} AbsorbedConcat(cur: Cursor, a: seq<Change>, b: seq<Change>)
    ensures Absorbed(cur, a + b) == Absorbed(Absorbed(cur, a), b)
    decreases |a|
  {
    if a == [] {
      assert a + b == b;
    } else {
      assert (a + b)[1..] == a[1..] + b;
      AbsorbedConcat(Absorb(cur, a[0]), a[1..], b);
    }
  }

  lemma {:induction false} AbsorbedBatch(cur: Cursor, es: seq<Entry>)
    ensures Absorbed(cur, Batch(es)) == CursorAt(cur, es, |es|)
    decreases |es|
  {
    if es != [] {
      var e := es[0];
      var c0, c1 := ChangeOf(e, ListNode, e.accepted.list), ChangeOf(e, Ip(e.ip), e.accepted.ip);
      var c2 := ChangeOf(e, LengthNode(e.length), e.accepted.length);
      AbsorbedConcat(cur, Expand(e), Batch(es[1..]));
      AbsorbEntry(cur, e);
      assert Expand(e) == ([c0] + [c1]) + [c2] && [c0][1..] == [];
      AbsorbedSnoc(cur, [c0] + [c1], c2);
      AbsorbedSnoc(cur, [c0], c1);
      assert Absorbed(Absorb(cur, c0), []) == Absorb(cur, c0);
      AbsorbedBatch(Next(cur, e), es[1..]);
    }
  }

  /** The last created (or deleted) address and length of a batch of entries, in its nodes. */
  lemma {:induction false} NodesOfBatch(es: seq<Entry>, create: bool)
    ensures AddressAfter(Batch(es), create) == LastAddress(es, |es|, create)
    ensures LengthAfter(Batch(es), create) == LengthInForce(es, |es|, create)
  {
    CarriedByNodes(Batch(es));
    AbsorbedBatch(START, es);
    CursorIs(es, |es|);
  }

  /** A modified value of a length leaf. */
  function ModifiedLeaf(itf: string, from: Node, to: Node): Change {
    Change(Modified, itf, Some(from), Some(to), true)
  }

  lemma {:induction false} NodesSnoc(init: seq<Change>, c: Change, create: bool)
    ensures var all := init + [c];
            && all[|all| - 1] == c && all[..|all| - 1] == init
            && AddressAfter(all, create) == AddressFrom(NodeOf(c, create), AddressAfter(init, create))
            && LengthAfter(all, create) == LengthFrom(NodeOf(c, create), LengthAfter(init, create))
  {
    assert (init + [c])[..|init|] == init;
  }

  lemma {:induction false} ModifiedNodes(es: seq<Entry>, c: Change)
    requires c.oper == Modified
    ensures var all := Batch(es) + [c];
            && all[|all| - 1] == c && all[..|all| - 1] == Batch(es)
            && (c.old_.Some? && (c.old_.value.PrefixLength? || c.old_.value.Mask?) ==>
                  AddressAfter(all, false) == LastAddress(es, |es|, false))
            && (c.new_.Some? && (c.new_.value.PrefixLength? || c.new_.value.Mask?) ==>
                  AddressAfter(all, true) == LastAddress(es, |es|, true))
  {
    NodesSnoc(Batch(es), c, true);
    NodesSnoc(Batch(es), c, false);
    NodesOfBatch(es, true);
    NodesOfBatch(es, false);
  }

  /** After any entries, a change that acts on these two bindings leaves the first bound and the second gone. */
  lemma {:induction false} LastChangeActs(canon: Notation, db: Database, changes: seq<Change>, key: Key)
    requires canon("").None? && changes != [] && NamedChanges(changes)
    ensures var v := NodeVerdict(canon, db, changes, |changes| - 1, key);
            v != Leaves ==> At(DatabaseAfter(canon, db, changes), key) == Decide(v, key, At(db, key))
  {
    NamedHeard(changes);
    LastNodesDecide(canon, db, changes, key);
  }

  lemma {:induction false} ModifiedActs(canon: Notation, db: Database, es: seq<Entry>, c: Change, m: nat, n: nat)
    requires canon("").None? && Named(es) && c.itf != "" && HasInterface(db, c.itf) && c.accepted
    requires var all := Batch(es) + [c];
             && AddressAfter(all, true) == LastAddress(es, |es|, true) && LengthAfter(all, true) == n
             && AddressAfter(all, false) == LastAddress(es, |es|, false) && LengthAfter(all, false) == m
    ensures var after := DatabaseAfter(canon, db, Batch(es) + [c]);
            var made, gone := KeyOf(canon, c.itf, LastAddress(es, |es|, true), n),
                              KeyOf(canon, c.itf, LastAddress(es, |es|, false), m);
            && (made.Some? ==> Holds(after, made.value))
            && (gone.Some? && gone != made ==> gone.value !in after)
  {
    var all := Batch(es) + [c];
    BatchNamed(es);
    assert all[..|all|] == all && all[|all| - 1] == c;
    var made := KeyOf(canon, c.itf, LastAddress(es, |es|, true), n);
    var gone := KeyOf(canon, c.itf, LastAddress(es, |es|, false), m);
    if made.Some? {
      LastChangeActs(canon, db, all, made.value);
    }
    if gone.Some? && gone != made {
      LastChangeActs(canon, db, all, gone.value);
    }
  }

  /**
   * Entries on any interfaces, then a prefix length modified from m to n: the last created address is bound on the
   * modified entry's interface under n, and the last deleted one is gone from it under m.
   */
  lemma {:induction false} ModifiedNumber(canon: Notation, db: Database, es: seq<Entry>, itf: string, m: Byte, n: Byte)
    requires canon("").None? && Named(es) && itf != "" && HasInterface(db, itf)
    ensures var after := DatabaseAfter(canon, db, Batch(es) + [ModifiedLeaf(itf, PrefixLength(m), PrefixLength(n))]);
            var made, gone := KeyOf(canon, itf, LastAddress(es, |es|, true), n),
                              KeyOf(canon, itf, LastAddress(es, |es|, false), m);
            && (made.Some? ==> Holds(after, made.value))
            && (gone.Some? && gone != made ==> gone.value !in after)
  {
    var c := ModifiedLeaf(itf, PrefixLength(m), PrefixLength(n));
    ModifiedNodes(es, c);
    ModifiedActs(canon, db, es, c, m, n);
  }

  /** The same for netmasks of m and n bits: the lengths are those rounded up to whole octets. */
  lemma {:induction false} ModifiedMask(canon: Notation, db: Database, es: seq<Entry>, itf: string,
                                        from: string, to: string)
    requires canon("").None? && Named(es) && itf != "" && HasInterface(db, itf)
    requires Netmask.PrefixOfMaskText(from).Some? && Netmask.PrefixOfMaskText(to).Some?
    ensures var after := DatabaseAfter(canon, db, Batch(es) + [ModifiedLeaf(itf, Mask(from), Mask(to))]);
            var m, n := Netmask.PrefixOfMaskText(from).value, Netmask.PrefixOfMaskText(to).value;
            var made := KeyOf(canon, itf, LastAddress(es, |es|, true), Netmask.RoundUpToOctet(n));
            var gone := KeyOf(canon, itf, LastAddress(es, |es|, false), Netmask.RoundUpToOctet(m));
            && (made.Some? ==> Holds(after, made.value))
            && (gone.Some? && gone != made ==> gone.value !in after)
  {
    var c := ModifiedLeaf(itf, Mask(from), Mask(to));
    Netmask.TextLengthExactAtOctets(from);
    Netmask.TextLengthExactAtOctets(to);
    ModifiedNodes(es, c);
    ModifiedActs(canon, db, es, c, Netmask.RoundUpToOctet(Netmask.PrefixOfMaskText(from).value),
                 Netmask.RoundUpToOctet(Netmask.PrefixOfMaskText(to).value));
  }

  /** A modification from a netmask that is none is abandoned half way: both lengths stay as the entries left them. */
  lemma {:induction false} ModifiedFromBadMask(canon: Notation, db: Database, es: seq<Entry>, itf: string,
                                               from: string, n: Byte)
    requires canon("").None? && Named(es) && itf != "" && HasInterface(db, itf) && ParseQuad(from).None?
    ensures var after := DatabaseAfter(canon, db, Batch(es) + [ModifiedLeaf(itf, Mask(from), PrefixLength(n))]);
            var made := KeyOf(canon, itf, LastAddress(es, |es|, true), LengthInForce(es, |es|, true));
            var gone := KeyOf(canon, itf, LastAddress(es, |es|, false), LengthInForce(es, |es|, false));
            && (made.Some? ==> Holds(after, made.value))
            && (gone.Some? && gone != made ==> gone.value !in after)
  {
    var c := ModifiedLeaf(itf, Mask(from), PrefixLength(n));
    NodesOfBatch(es, true);
    NodesOfBatch(es, false);
    ModifiedNodes(es, c);
    ModifiedActs(canon, db, es, c, LengthInForce(es, |es|, false), LengthInForce(es, |es|, true));
  }
}
