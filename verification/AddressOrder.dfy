/**
 * The address callback on batches of any shape: creations, deletions, modifications and moves in any order,
 * the same address on both sides, names missing, writes refused. Key by key, the last change that touches a
 * binding decides it.
 */
module AddressOrder {
  import opened Wrappers
  import opened Prefix
  import opened ObjectModel
  import opened AddressChange
  import opened AddressBatch
  import opened AddressEffects

  /** What is under a key. */
  function At(db: Database, key: Key): Option<Object> {
    if key in db then Some(db[key]) else None
  }

  /** What something does to a key. */
  datatype Verdict = Puts | Takes | Leaves

  function Decide(v: Verdict, key: Key, before: Option<Object>): Option<Object> {
    match v
    case Puts => if key.BindingKey? then Some(L3(key.itf, key.address, key.length)) else before
    case Takes => None
    case Leaves => before
  }

  /** The later of two verdicts counts, unless it leaves the key alone. */
  function Then(first: Verdict, second: Verdict): Verdict {
    if second == Leaves then first else second
  }

  /** The key of an address text; None for a text that is no address. */
  function KeyOf(canon: Notation, itf: string, addr: string, length: nat): Option<Key> {
    match canon(addr)
    case Some(a) => Some(BindingKey(itf, a, length))
    case None => None
  }

  // ---------- Changes ----------

  /** The changes before the first one without an interface name, which ends the loop. */
  function Heard(changes: seq<Change>): (r: seq<Change>)
    ensures NamedChanges(r)
  {
    if changes == [] || changes[0].itf == "" then [] else [changes[0]] + Heard(changes[1..])
  }

  /** What a change does to a key once it is absorbed: the carried old binding goes, the carried new one comes. */
  function ChangeVerdict(canon: Notation, db: Database, next: Cursor, c: Change, key: Key): Verdict {
    if !HasInterface(db, c.itf) then Leaves
    else if c.accepted && KeyOf(canon, c.itf, next.newAddr, next.newLen) == Some(key) then Puts
    else if KeyOf(canon, c.itf, next.oldAddr, next.oldLen) == Some(key) then Takes
    else Leaves
  }

  /** The verdict of the last change that touches the key. */
  function LastVerdict(canon: Notation, db: Database, cur: Cursor, changes: seq<Change>, key: Key): Verdict
    decreases |changes|
  {
    if changes == [] then Leaves
    else
      var next := Absorb(cur, changes[0]);
      Then(ChangeVerdict(canon, db, next, changes[0], key), LastVerdict(canon, db, next, changes[1..], key))
  }

  lemma {:induction false} HeardOnly(canon: Notation, db: Database, cur: Cursor, rc: Code, changes: seq<Change>)
    ensures Run(canon, db, cur, rc, changes).ops == Run(canon, db, cur, rc, Heard(changes)).ops
    decreases |changes|
  {
    if changes != [] && changes[0].itf != "" {
      var next, c := Absorb(cur, changes[0]), changes[0];
      var now := Act(canon, db, next, c.itf, c.accepted, rc);
      HeardOnly(canon, ApplyAll(db, now.ops), next, now.rc, changes[1..]);
      assert Heard(changes)[1..] == Heard(changes[1..]);
    }
  }

  lemma {:induction false} PatchAt(canon: Notation, db: Database, db': Database, next: Cursor, c: Change, key: Key)
    requires HasInterface(db', c.itf) <==> HasInterface(db, c.itf)
    ensures At(PatchOnce(canon, db', next, c.itf, c.accepted), key)
         == Decide(ChangeVerdict(canon, db, next, c, key), key, At(db', key))
  {
  }

  lemma {:induction false} PatchKeepsInterfaces(canon: Notation, db: Database, next: Cursor, itf: string,
                                                accepted: bool)
    ensures forall n :: HasInterface(PatchOnce(canon, db, next, itf, accepted), n) <==> HasInterface(db, n)
  {
  }

  lemma {:induction false} SettleAt(canon: Notation, db: Database, db': Database, cur: Cursor, changes: seq<Change>,
                                    key: Key)
    requires forall n :: HasInterface(db', n) <==> HasInterface(db, n)
    ensures At(Settle(canon, db', cur, changes), key)
         == Decide(LastVerdict(canon, db, cur, changes, key), key, At(db', key))
    decreases |changes|
  {
    if changes != [] {
      var next, c := Absorb(cur, changes[0]), changes[0];
      PatchAt(canon, db, db', next, c, key);
      PatchKeepsInterfaces(canon, db', next, c.itf, c.accepted);
      SettleAt(canon, db, PatchOnce(canon, db', next, c.itf, c.accepted), next, changes[1..], key);
    }
  }

  /** The database after the callback handled any changes. */
  function DatabaseAfter(canon: Notation, db: Database, changes: seq<Change>): Database {
    ApplyAll(db, Run(canon, db, START, Ok, changes).ops)
  }

  /**
   * The exact effect of every batch whatsoever: of the changes before the loop ends, the last one that touches
   * a key decides whether it is bound, and a key that none touches keeps its object.
   */
  lemma {:induction false} LastTouchDecides(canon: Notation, db: Database, changes: seq<Change>, key: Key)
    requires canon("").None?
    ensures At(DatabaseAfter(canon, db, changes), key)
         == Decide(LastVerdict(canon, db, START, Heard(changes), key), key, At(db, key))
  {
    HeardOnly(canon, db, START, Ok, changes);
    RunSettles(canon, db, START, Ok, Heard(changes));
    SettleAt(canon, db, db, START, Heard(changes), key);
  }

  // ---------- When a batch changes nothing ----------

  /** The last verdict on the key changes nothing. */
  ghost predicate Idle(db: Database, v: Verdict, key: Key) {
    (v == Puts ==> Holds(db, key)) && (v == Takes ==> key !in db)
  }

  /** The keys a change touches, from what the loop carries when it acts. */
  function Touched(canon: Notation, db: Database, next: Cursor, c: Change): set<Key> {
    if !HasInterface(db, c.itf) then {}
    else
      (if c.accepted then KeySet(KeyOf(canon, c.itf, next.newAddr, next.newLen)) else {})
      + KeySet(KeyOf(canon, c.itf, next.oldAddr, next.oldLen))
  }

  function KeySet(k: Option<Key>): set<Key> {
    if k.Some? then {k.value} else {}
  }

  function AllTouched(canon: Notation, db: Database, cur: Cursor, changes: seq<Change>): set<Key>
    decreases |changes|
  {
    if changes == [] then {}
    else
      var next := Absorb(cur, changes[0]);
      Touched(canon, db, next, changes[0]) + AllTouched(canon, db, next, changes[1..])
  }

  lemma {:induction false} UntouchedLeaves(canon: Notation, db: Database, cur: Cursor, changes: seq<Change>, key: Key)
    ensures key in AllTouched(canon, db, cur, changes) <==> LastVerdict(canon, db, cur, changes, key) != Leaves
    ensures key in AllTouched(canon, db, cur, changes) ==> key.BindingKey?
    decreases |changes|
  {
    if changes != [] {
      UntouchedLeaves(canon, db, Absorb(cur, changes[0]), changes[1..], key);
    }
  }

  /** Each of the finitely many keys touched is bound where it was bound already, removed where it was not there. */
  ghost predicate AllIdle(canon: Notation, db: Database, changes: seq<Change>) {
    forall key :: key in AllTouched(canon, db, START, changes) ==>
      Idle(db, LastVerdict(canon, db, START, changes, key), key)
  }

  /**
   * A batch leaves the database as it was if and only if, of each key its changes touch, the last of them
   * binds what was bound already or removes what was not there.
   */
  lemma {:induction false} NothingChangesIff(canon: Notation, db: Database, changes: seq<Change>)
    requires canon("").None?
    ensures DatabaseAfter(canon, db, changes) == db <==> AllIdle(canon, db, Heard(changes))
  {
    var cs, after := Heard(changes), DatabaseAfter(canon, db, changes);
    if AllIdle(canon, db, cs) {
      forall key ensures At(after, key) == At(db, key) {
        LastTouchDecides(canon, db, changes, key);
        UntouchedLeaves(canon, db, START, cs, key);
      }
      SameEverywhere(after, db);
    }
    if after == db {
      forall key | key in AllTouched(canon, db, START, cs)
        ensures Idle(db, LastVerdict(canon, db, START, cs, key), key)
      {
        LastTouchDecides(canon, db, changes, key);
        UntouchedLeaves(canon, db, START, cs, key);
      }
    }
  }

  lemma SameEverywhere(a: Database, b: Database)
    requires forall key :: At(a, key) == At(b, key)
    ensures a == b
  {
    assert forall key :: key in a ==> At(a, key) == At(b, key);
    assert forall key :: key in b ==> At(a, key) == At(b, key);
  }

  // ---------- Entries ----------

  /**
   * What an entry does to a key. Where a deleted address is the one carried as created, or the reverse, the
   * order of its three changes matters.
   */
  function EntryVerdict(canon: Notation, db: Database, cur: Cursor, e: Entry, key: Key): Verdict {
    var ok, k := e.accepted, Some(key);
    if !HasInterface(db, e.itf) then Leaves
    else if e.create then
      var carried := KeyOf(canon, e.itf, cur.oldAddr, cur.oldLen);
      if ok.length && KeyOf(canon, e.itf, e.ip, LengthOf(e.length, cur.newLen)) == k then Puts
      else if carried == k then Takes
      else if ok.ip && KeyOf(canon, e.itf, e.ip, cur.newLen) == k then Puts
      else Leaves
    else
      var carried := KeyOf(canon, e.itf, cur.newAddr, cur.newLen);
      if ok.length && carried == k then Puts
      else if KeyOf(canon, e.itf, e.ip, LengthOf(e.length, cur.oldLen)) == k then Takes
      else if ok.ip && carried == k then Puts
      else if KeyOf(canon, e.itf, e.ip, cur.oldLen) == k then Takes
      else if ok.list && carried == k then Puts
      else Leaves
  }

  function LastEntryVerdict(canon: Notation, db: Database, cur: Cursor, es: seq<Entry>, key: Key): Verdict
    decreases |es|
  {
    if es == [] then Leaves
    else
      Then(EntryVerdict(canon, db, cur, es[0], key), LastEntryVerdict(canon, db, Next(cur, es[0]), es[1..], key))
  }

  lemma {:induction false} VerdictStep(canon: Notation, db: Database, cur: Cursor, c: Change, rest: seq<Change>,
                                       key: Key)
    ensures var next := Absorb(cur, c);
            LastVerdict(canon, db, cur, [c] + rest, key)
            == Then(ChangeVerdict(canon, db, next, c, key), LastVerdict(canon, db, next, rest, key))
  {
    assert ([c] + rest)[1..] == rest;
  }

  lemma {:induction false} ThreeVerdicts(canon: Notation, db: Database, cur: Cursor, c0: Change, c1: Change,
                                         c2: Change, rest: seq<Change>, key: Key)
    ensures var cur1 := Absorb(cur, c0);
            var cur2 := Absorb(cur1, c1);
            var cur3 := Absorb(cur2, c2);
            LastVerdict(canon, db, cur, [c0, c1, c2] + rest, key)
            == Then(Then(Then(ChangeVerdict(canon, db, cur1, c0, key), ChangeVerdict(canon, db, cur2, c1, key)),
                         ChangeVerdict(canon, db, cur3, c2, key)),
                    LastVerdict(canon, db, cur3, rest, key))
  {
    assert [c0, c1, c2] + rest == [c0] + ([c1] + ([c2] + rest));
    var cur1 := Absorb(cur, c0);
    VerdictStep(canon, db, cur, c0, [c1] + ([c2] + rest), key);
    VerdictStep(canon, db, cur1, c1, [c2] + rest, key);
    VerdictStep(canon, db, Absorb(cur1, c1), c2, rest, key);
  }

  lemma {:induction false} ThreeAreOne(canon: Notation, db: Database, cur: Cursor, e: Entry, key: Key)
    requires canon("").None?
    ensures var c0, c1 := ChangeOf(e, ListNode, e.accepted.list), ChangeOf(e, Ip(e.ip), e.accepted.ip);
            var c2 := ChangeOf(e, LengthNode(e.length), e.accepted.length);
            var cur1 := Absorb(cur, c0);
            Then(Then(ChangeVerdict(canon, db, cur1, c0, key), ChangeVerdict(canon, db, Absorb(cur1, c1), c1, key)),
                 ChangeVerdict(canon, db, Next(cur, e), c2, key))
            == EntryVerdict(canon, db, cur, e, key)
  {
    var c0, c1 := ChangeOf(e, ListNode, e.accepted.list), ChangeOf(e, Ip(e.ip), e.accepted.ip);
    var cur1 := Absorb(cur, c0);
    if e.create {
      assert cur1 == cur.(create := true, newAddr := "");
      assert Absorb(cur1, c1) == cur.(create := true, newAddr := e.ip);
    } else {
      assert cur1 == cur.(del := true, oldAddr := "");
      assert Absorb(cur1, c1) == cur.(del := true, oldAddr := e.ip);
    }
  }

  /** The three changes of an entry have the entry's verdict. */
  lemma {:induction false} EntryVerdictIs(canon: Notation, db: Database, cur: Cursor, e: Entry, rest: seq<Change>,
                                          key: Key)
    requires canon("").None?
    ensures LastVerdict(canon, db, cur, Expand(e) + rest, key)
         == Then(EntryVerdict(canon, db, cur, e, key), LastVerdict(canon, db, Next(cur, e), rest, key))
  {
    var ok := e.accepted;
    var c0, c1 := ChangeOf(e, ListNode, ok.list), ChangeOf(e, Ip(e.ip), ok.ip);
    var c2 := ChangeOf(e, LengthNode(e.length), ok.length);
    ThreeVerdicts(canon, db, cur, c0, c1, c2, rest, key);
    AbsorbEntry(cur, e);
    ThreeAreOne(canon, db, cur, e, key);
  }

  lemma {:induction false} BatchVerdict(canon: Notation, db: Database, cur: Cursor, es: seq<Entry>, key: Key)
    requires canon("").None?
    ensures LastVerdict(canon, db, cur, Batch(es), key) == LastEntryVerdict(canon, db, cur, es, key)
    decreases |es|
  {
    if es != [] {
      EntryVerdictIs(canon, db, cur, es[0], Batch(es[1..]), key);
      BatchVerdict(canon, db, Next(cur, es[0]), es[1..], key);
    }
  }

  lemma {:induction false} NamedHeard(changes: seq<Change>)
    requires NamedChanges(changes)
    ensures Heard(changes) == changes
  {
    if changes != [] {
      NamedHeard(changes[1..]);
    }
  }

  /** The same by entries, for any batch of creations and deletions, one address on both sides included. */
  lemma {:induction false} LastEntryDecides(canon: Notation, db: Database, es: seq<Entry>, key: Key)
    requires canon("").None? && Named(es)
    ensures At(Result(canon, db, es), key)
         == Decide(LastEntryVerdict(canon, db, START, es, key), key, At(db, key))
  {
    BatchNamed(es);
    NamedHeard(Batch(es));
    LastTouchDecides(canon, db, Batch(es), key);
    BatchVerdict(canon, db, START, es, key);
  }

  /** The verdict of the k-th entry of a batch, the variables carried to it included. */
  function VerdictAt(canon: Notation, db: Database, cur: Cursor, es: seq<Entry>, k: nat, key: Key): Verdict
    requires k < |es|
  {
    EntryVerdict(canon, db, CursorAt(cur, es, k), es[k], key)
  }

  /** The k-th entry is the last to touch the key. */
  ghost predicate TouchesLast(canon: Notation, db: Database, cur: Cursor, es: seq<Entry>, k: int, key: Key) {
    && 0 <= k < |es| && VerdictAt(canon, db, cur, es, k, key) != Leaves
    && forall j :: k < j < |es| ==> VerdictAt(canon, db, cur, es, j, key) == Leaves
  }

  /** The verdict on a key is that of the last entry to touch it, if there is one. */
  lemma {:induction false} LastToTouch(canon: Notation, db: Database, cur: Cursor, es: seq<Entry>, key: Key)
    ensures var v := LastEntryVerdict(canon, db, cur, es, key);
            if v == Leaves then forall k :: 0 <= k < |es| ==> VerdictAt(canon, db, cur, es, k, key) == Leaves
            else exists k :: TouchesLast(canon, db, cur, es, k, key) && VerdictAt(canon, db, cur, es, k, key) == v
    decreases |es|
  {
    if es != [] {
      var next, tail := Next(cur, es[0]), es[1..];
      LastToTouch(canon, db, next, tail, key);
      assert VerdictAt(canon, db, cur, es, 0, key) == EntryVerdict(canon, db, cur, es[0], key);
      if LastEntryVerdict(canon, db, next, tail, key) == Leaves {
        LeavesAfter(canon, db, cur, es, 0, key);
        assert VerdictAt(canon, db, cur, es, 0, key) != Leaves ==> TouchesLast(canon, db, cur, es, 0, key);
      } else {
        var k :| TouchesLast(canon, db, next, tail, k, key)
                 && VerdictAt(canon, db, next, tail, k, key) == LastEntryVerdict(canon, db, next, tail, key);
        LeavesAfter(canon, db, cur, es, k + 1, key);
        assert VerdictAt(canon, db, cur, es, k + 1, key) == VerdictAt(canon, db, next, tail, k, key);
        assert TouchesLast(canon, db, cur, es, k + 1, key);
      }
    }
  }

  lemma {:induction false} LeavesAfter(canon: Notation, db: Database, cur: Cursor, es: seq<Entry>, k: nat, key: Key)
    requires k < |es|
    requires forall j :: k <= j < |es| - 1 ==> VerdictAt(canon, db, Next(cur, es[0]), es[1..], j, key) == Leaves
    ensures forall j :: k < j < |es| ==> VerdictAt(canon, db, cur, es, j, key) == Leaves
  {
    forall j | k < j < |es| ensures VerdictAt(canon, db, cur, es, j, key) == Leaves {
      assert VerdictAt(canon, db, Next(cur, es[0]), es[1..], j - 1, key) == Leaves;
    }
  }

  /** Every entry that binds the key is followed by one that removes it. */
  ghost predicate TakenBack(canon: Notation, db: Database, es: seq<Entry>, key: Key) {
    forall j :: 0 <= j < |es| && VerdictAt(canon, db, START, es, j, key) == Puts ==>
      exists m :: j < m < |es| && VerdictAt(canon, db, START, es, m, key) == Takes
  }

  lemma {:induction false} TakenBackIff(canon: Notation, db: Database, es: seq<Entry>, key: Key)
    ensures TakenBack(canon, db, es, key) <==> LastEntryVerdict(canon, db, START, es, key) != Puts
  {
    LastToTouch(canon, db, START, es, key);
    var v := LastEntryVerdict(canon, db, START, es, key);
    if v != Leaves {
      var k :| TouchesLast(canon, db, START, es, k, key) && VerdictAt(canon, db, START, es, k, key) == v;
      assert forall j :: 0 <= j < |es| && VerdictAt(canon, db, START, es, j, key) == Puts ==> j <= k;
    }
  }

  /** A deleted entry touches its own key: it removes it, unless it is the one carried as created. */
  lemma {:induction false} DeletionTouchesOwn(canon: Notation, db: Database, es: seq<Entry>, k: nat)
    requires k < |es| && !es[k].create && Bindable(canon, db, es[k])
    ensures VerdictAt(canon, db, START, es, k, OwnKey(canon, es, k)) != Leaves
  {
    CursorIs(es, k);
  }

  /**
   * A deletion takes effect, in any batch of creations and deletions and with any writes refused, if and only if
   * every entry that binds its key, itself included, is followed by one that removes it.
   */
  lemma {:induction false} DeletionTakesEffectIff(canon: Notation, db: Database, es: seq<Entry>, k: nat)
    requires canon("").None? && Named(es) && k < |es| && !es[k].create && Bindable(canon, db, es[k])
    ensures OwnKey(canon, es, k) !in Result(canon, db, es) <==> TakenBack(canon, db, es, OwnKey(canon, es, k))
  {
    var key := OwnKey(canon, es, k);
    LastEntryDecides(canon, db, es, key);
    TakenBackIff(canon, db, es, key);
    LastToTouch(canon, db, START, es, key);
    DeletionTouchesOwn(canon, db, es, k);
  }

  /** A creation takes effect if and only if the last entry to touch its key binds it, or none does and it is there. */
  lemma {:induction false} CreationTakesEffectIff(canon: Notation, db: Database, es: seq<Entry>, k: nat)
    requires canon("").None? && Named(es) && k < |es| && es[k].create && Bindable(canon, db, es[k])
    ensures var key := OwnKey(canon, es, k);
            Holds(Result(canon, db, es), key) <==>
            || (exists j :: TouchesLast(canon, db, START, es, j, key)
                            && VerdictAt(canon, db, START, es, j, key) == Puts)
            || (Holds(db, key) && forall j :: 0 <= j < |es| ==> VerdictAt(canon, db, START, es, j, key) == Leaves)
  {
    var key := OwnKey(canon, es, k);
    LastEntryDecides(canon, db, es, key);
    LastToTouch(canon, db, START, es, key);
    LastIsUnique(canon, db, es, key);
  }

  lemma {:induction false} LastIsUnique(canon: Notation, db: Database, es: seq<Entry>, key: Key)
    ensures forall i, j :: TouchesLast(canon, db, START, es, i, key) && TouchesLast(canon, db, START, es, j, key) ==>
              i == j
  {
  }

  // ---------- Moving an address ----------

  /** An address moves to another interface: the same canonical address and the same length. */
  ghost predicate Move(canon: Notation, db: Database, c: Entry, d: Entry) {
    && c.create && !d.create && c.itf != "" && d.itf != "" && c.itf != d.itf
    && Bindable(canon, db, c) && Bindable(canon, db, d) && canon(c.ip) == canon(d.ip)
    && LengthOf(c.length, 0) == LengthOf(d.length, 0)
  }

  lemma {:induction false} PairVerdict(canon: Notation, db: Database, a: Entry, b: Entry, key: Key)
    requires canon("").None? && a.itf != "" && b.itf != ""
    ensures At(Result(canon, db, [a, b]), key)
         == Decide(Then(EntryVerdict(canon, db, START, a, key), EntryVerdict(canon, db, Next(START, a), b, key)), key,
                   At(db, key))
  {
    var es, next := [a, b], Next(START, a);
    assert es[0] == a && es[1] == b && es[1..] == [b] && [b][1..] == [];
    assert LastEntryVerdict(canon, db, Next(next, b), [], key) == Leaves;
    assert LastEntryVerdict(canon, db, next, [b], key) == EntryVerdict(canon, db, next, b, key);
    LastEntryDecides(canon, db, es, key);
  }

  /** With the creation first, a successful batch leaves the binding on the old interface as well. */
  lemma {:induction false} CreationFirstKeepsOld(canon: Notation, db: Database, c: Entry, d: Entry)
    requires canon("").None? && Move(canon, db, c, d) && d.accepted.length
    ensures Holds(Result(canon, db, [c, d]), BindingKey(d.itf, canon(d.ip).value, LengthOf(d.length, 0)))
  {
    var key := BindingKey(d.itf, canon(d.ip).value, LengthOf(d.length, 0));
    PairVerdict(canon, db, c, d, key);
    assert EntryVerdict(canon, db, Next(START, c), d, key) == Puts;
  }

  /** With the deletion first, the address moves: bound on the new interface and gone from the old one. */
  lemma {:induction false} DeletionFirstMoves(canon: Notation, db: Database, c: Entry, d: Entry)
    requires canon("").None? && Move(canon, db, c, d) && c.accepted.length
    ensures var after, length := Result(canon, db, [d, c]), LengthOf(c.length, 0);
            && Holds(after, BindingKey(c.itf, canon(c.ip).value, length))
            && BindingKey(d.itf, canon(d.ip).value, length) !in after
  {
    var length := LengthOf(c.length, 0);
    var come, gone := BindingKey(c.itf, canon(c.ip).value, length), BindingKey(d.itf, canon(d.ip).value, length);
    PairVerdict(canon, db, d, c, come);
    PairVerdict(canon, db, d, c, gone);
    assert EntryVerdict(canon, db, Next(START, d), c, come) == Puts;
    assert EntryVerdict(canon, db, START, d, gone) == Takes;
  }
}
