/**
 * What the address callback does to the database for a whole batch. A batch is a sequence of list
 * entries, each created or deleted, that arrive in schema order: the list node, its key `ip`, and then
 * `prefix-length` or `netmask` (the address list in section 4 of RFC 7277).
 */
module AddressBatch {
  import opened Wrappers
  import opened Prefix
  import opened ObjectModel
  import opened AddressChange
  import Netmask

  datatype Length = Plen(n: Byte) | MaskText(text: string)

  /** What OM::write answers while the list node, the `ip` and the length of an entry are handled. */
  datatype Answers = Answers(list: bool, ip: bool, length: bool)

  const YES := Answers(true, true, true)

  datatype Entry = Entry(create: bool, itf: string, ip: string, length: Length, accepted: Answers)

  /** The length in force after the leaf: a netmask that does not parse leaves the previous one. */
  function LengthOf(l: Length, previous: nat): nat {
    match l
    case Plen(n) => n
    case MaskText(text) =>
      match Netmask.LengthOfMaskText(text)
      case Some(n) => n
      case None => previous
  }

  function LengthNode(l: Length): Node {
    match l
    case Plen(n) => PrefixLength(n)
    case MaskText(text) => Mask(text)
  }

  function ChangeOf(e: Entry, node: Node, accepted: bool): Change {
    if e.create then Change(Created, e.itf, None, Some(node), accepted)
    else Change(Deleted, e.itf, Some(node), None, accepted)
  }

  function Expand(e: Entry): seq<Change> {
    [ChangeOf(e, ListNode, e.accepted.list),
     ChangeOf(e, Ip(e.ip), e.accepted.ip),
     ChangeOf(e, LengthNode(e.length), e.accepted.length)]
  }

  function Batch(es: seq<Entry>): seq<Change> {
    if es == [] then [] else Expand(es[0]) + Batch(es[1..])
  }

  /** The database after the callback handled a batch. */
  function Result(canon: Notation, db: Database, es: seq<Entry>): Database {
    ApplyAll(db, Run(canon, db, START, Ok, Batch(es)).ops)
  }

  // ---------- The effect as one removal set and one map of additions ----------

  /** The binding of an address text to an interface; nothing for a bad text or a missing interface. */
  function Bound(canon: Notation, db: Database, itf: string, addr: string, length: nat): Database {
    if HasInterface(db, itf) && canon(addr).Some?
    then map[BindingKey(itf, canon(addr).value, length) := L3(itf, canon(addr).value, length)]
    else map[]
  }

  /** A binding that is added if the write is accepted. */
  function Offer(canon: Notation, db: Database, itf: string, addr: string, length: nat, accepted: bool): Database {
    if accepted then Bound(canon, db, itf, addr, length) else map[]
  }

  function Next(cur: Cursor, e: Entry): Cursor {
    if e.create then cur.(create := true, newAddr := e.ip, newLen := LengthOf(e.length, cur.newLen))
    else cur.(del := true, oldAddr := e.ip, oldLen := LengthOf(e.length, cur.oldLen))
  }

  /**
   * What an entry adds, as far as the writes are accepted: a created entry its address under the previous
   * length and under its own, a deleted entry the last created address once more, on its own interface.
   */
  function AddsOf(canon: Notation, db: Database, cur: Cursor, e: Entry): Database {
    if e.create then
      Offer(canon, db, e.itf, e.ip, cur.newLen, e.accepted.ip)
      + Offer(canon, db, e.itf, e.ip, LengthOf(e.length, cur.newLen), e.accepted.length)
    else
      Offer(canon, db, e.itf, cur.newAddr, cur.newLen, e.accepted.list || e.accepted.ip || e.accepted.length)
  }

  /** What an entry removes, the mirror image. */
  function RemsOf(canon: Notation, db: Database, cur: Cursor, e: Entry): set<Key> {
    if e.create then Bound(canon, db, e.itf, cur.oldAddr, cur.oldLen).Keys
    else
      (Bound(canon, db, e.itf, e.ip, cur.oldLen)
       + Bound(canon, db, e.itf, e.ip, LengthOf(e.length, cur.oldLen))).Keys
  }

  function Adds(canon: Notation, db: Database, cur: Cursor, es: seq<Entry>): Database
    decreases |es|
  {
    if es == [] then map[] else AddsOf(canon, db, cur, es[0]) + Adds(canon, db, Next(cur, es[0]), es[1..])
  }

  function Rems(canon: Notation, db: Database, cur: Cursor, es: seq<Entry>): set<Key>
    decreases |es|
  {
    if es == [] then {} else RemsOf(canon, db, cur, es[0]) + Rems(canon, db, Next(cur, es[0]), es[1..])
  }

  function Patch(db: Database, rems: set<Key>, adds: Database): Database {
    (db - rems) + adds
  }

  // ---------- Conditions ----------

  ghost predicate Named(es: seq<Entry>) {
    forall k :: 0 <= k < |es| ==> es[k].itf != ""
  }

  function Canonical(canon: Notation, addr: string): set<string> {
    if canon(addr).Some? then {canon(addr).value} else {}
  }

  /** The canonical addresses a batch creates (or, with false, deletes). */
  function Addresses(canon: Notation, es: seq<Entry>, create: bool): set<string> {
    if es == [] then {}
    else (if es[0].create == create then Canonical(canon, es[0].ip) else {}) + Addresses(canon, es[1..], create)
  }

  function NewAddresses(canon: Notation, cur: Cursor, es: seq<Entry>): set<string> {
    Canonical(canon, cur.newAddr) + Addresses(canon, es, true)
  }

  function OldAddresses(canon: Notation, cur: Cursor, es: seq<Entry>): set<string> {
    Canonical(canon, cur.oldAddr) + Addresses(canon, es, false)
  }

  /** The carried addresses are only ever set together with their flag. */
  ghost predicate Sticky(cur: Cursor) {
    (cur.newAddr != "" ==> cur.create) && (cur.oldAddr != "" ==> cur.del)
  }

  // ---------- One change ----------

  lemma {:induction false} RemoveOldEffect(canon: Notation, db: Database, cur: Cursor, itf: string, rc: Code)
    requires canon("").None? && Sticky(cur)
    ensures ApplyAll(db, RemoveOld(canon, db, cur, itf, rc).ops)
         == Patch(db, Bound(canon, db, itf, cur.oldAddr, cur.oldLen).Keys, map[])
  {
    var ops := RemoveOld(canon, db, cur, itf, rc).ops;
    if ops != [] {
      assert ops[1..] == [];
    }
  }

  lemma {:induction false} AddNewEffect(canon: Notation, db: Database, cur: Cursor, itf: string, accepted: bool,
                                        rc: Code)
    requires canon("").None? && Sticky(cur)
    ensures ApplyAll(db, AddNew(canon, db, cur, itf, accepted, rc).ops)
         == db + Offer(canon, db, itf, cur.newAddr, cur.newLen, accepted)
  {
    var ops := AddNew(canon, db, cur, itf, accepted, rc).ops;
    if ops != [] {
      assert ops[1..] == [];
    }
  }

  /** Binding commands never make an interface appear or vanish, so a binding means the same afterwards. */
  lemma PatchSame(db: Database, rems: set<Key>, adds: Database)
    requires forall k :: k in rems || k in adds ==> k.BindingKey?
    ensures forall itf :: HasInterface(Patch(db, rems, adds), itf) <==> HasInterface(db, itf)
  {
  }

  lemma {:induction false} ActEffect(canon: Notation, db: Database, cur: Cursor, itf: string, accepted: bool, rc: Code)
    requires canon("").None? && Sticky(cur)
    ensures ApplyAll(db, Act(canon, db, cur, itf, accepted, rc).ops) == PatchOnce(canon, db, cur, itf, accepted)
  {
    var removal := RemoveOld(canon, db, cur, itf, rc);
    var mid := ApplyAll(db, removal.ops);
    RemoveOldEffect(canon, db, cur, itf, rc);
    PatchSame(db, Bound(canon, db, itf, cur.oldAddr, cur.oldLen).Keys, map[]);
    AddNewEffect(canon, mid, cur, itf, accepted, removal.rc);
    ApplyAllConcat(db, removal.ops, AddNew(canon, mid, cur, itf, accepted, removal.rc).ops);
  }

  /** A change as one patch: the carried old binding goes, the carried new one comes if it is accepted. */
  function PatchOnce(canon: Notation, db: Database, cur: Cursor, itf: string, accepted: bool): Database {
    Patch(db, Bound(canon, db, itf, cur.oldAddr, cur.oldLen).Keys,
          Offer(canon, db, itf, cur.newAddr, cur.newLen, accepted))
  }

  /** The loop as successive patches. */
  function Settle(canon: Notation, db: Database, cur: Cursor, changes: seq<Change>): Database
    decreases |changes|
  {
    if changes == [] then db
    else
      var next := Absorb(cur, changes[0]);
      Settle(canon, PatchOnce(canon, db, next, changes[0].itf, changes[0].accepted), next, changes[1..])
  }

  ghost predicate NamedChanges(changes: seq<Change>) {
    forall i :: 0 <= i < |changes| ==> changes[i].itf != ""
  }

  lemma {:induction false} RunSettles(canon: Notation, db: Database, cur: Cursor, rc: Code, changes: seq<Change>)
    requires canon("").None? && Sticky(cur) && NamedChanges(changes)
    ensures ApplyAll(db, Run(canon, db, cur, rc, changes).ops) == Settle(canon, db, cur, changes)
    decreases |changes|
  {
    if changes != [] {
      var next, c := Absorb(cur, changes[0]), changes[0];
      ActEffect(canon, db, next, c.itf, c.accepted, rc);
      var now := Act(canon, db, next, c.itf, c.accepted, rc);
      var db' := ApplyAll(db, now.ops);
      RunSettles(canon, db', next, now.rc, changes[1..]);
      ApplyAllConcat(db, now.ops, Run(canon, db', next, now.rc, changes[1..]).ops);
    }
  }

  // ---------- One entry ----------

  lemma {:induction false} SettleStep(canon: Notation, db: Database, cur: Cursor, c: Change, rest: seq<Change>)
    ensures Settle(canon, db, cur, [c] + rest)
         == Settle(canon, PatchOnce(canon, db, Absorb(cur, c), c.itf, c.accepted), Absorb(cur, c), rest)
  {
    assert ([c] + rest)[1..] == rest;
  }

  lemma {:induction false} SettleThree(canon: Notation, db: Database, cur: Cursor, c0: Change, c1: Change, c2: Change,
                                       rest: seq<Change>)
    ensures var cur1 := Absorb(cur, c0);
            var cur2 := Absorb(cur1, c1);
            var cur3 := Absorb(cur2, c2);
            var db1 := PatchOnce(canon, db, cur1, c0.itf, c0.accepted);
            var db2 := PatchOnce(canon, db1, cur2, c1.itf, c1.accepted);
            Settle(canon, db, cur, [c0, c1, c2] + rest)
            == Settle(canon, PatchOnce(canon, db2, cur3, c2.itf, c2.accepted), cur3, rest)
  {
    assert [c0, c1, c2] + rest == [c0] + ([c1] + ([c2] + rest));
    var cur1 := Absorb(cur, c0);
    var cur2 := Absorb(cur1, c1);
    var db1 := PatchOnce(canon, db, cur1, c0.itf, c0.accepted);
    SettleStep(canon, db, cur, c0, [c1] + ([c2] + rest));
    SettleStep(canon, db1, cur1, c1, [c2] + rest);
    SettleStep(canon, PatchOnce(canon, db1, cur2, c1.itf, c1.accepted), cur2, c2, rest);
  }

  lemma AbsorbEntry(cur: Cursor, e: Entry)
    ensures var list, ip := ChangeOf(e, ListNode, e.accepted.list), ChangeOf(e, Ip(e.ip), e.accepted.ip);
            Absorb(Absorb(Absorb(cur, list), ip), ChangeOf(e, LengthNode(e.length), e.accepted.length)) == Next(cur, e)
  {
  }

  /** The three changes of an entry amount to one patch, unless it names the address carried on the other side. */
  lemma {:induction false} EntryEffect(canon: Notation, db: Database, cur: Cursor, e: Entry, rest: seq<Change>)
    requires canon("").None?
    requires Canonical(canon, e.ip) !! Canonical(canon, if e.create then cur.oldAddr else cur.newAddr)
    ensures Settle(canon, db, cur, Expand(e) + rest)
         == Settle(canon, Patch(db, RemsOf(canon, db, cur, e), AddsOf(canon, db, cur, e)), Next(cur, e), rest)
  {
    var ok := e.accepted;
    var c0, c1 := ChangeOf(e, ListNode, ok.list), ChangeOf(e, Ip(e.ip), ok.ip);
    var c2 := ChangeOf(e, LengthNode(e.length), ok.length);
    SettleThree(canon, db, cur, c0, c1, c2, rest);
    var cur1 := Absorb(cur, c0);
    var cur2 := Absorb(cur1, c1);
    AbsorbEntry(cur, e);
    if e.create {
      CreatePatches(canon, db, cur1, cur2, Next(cur, e), e.itf, ok);
    } else {
      DeletePatches(canon, db, cur1, cur2, Next(cur, e), e.itf, ok);
    }
  }

  lemma SharedRemoval(db: Database, gone: set<Key>, early: Database, own: Database)
    requires gone !! early.Keys
    ensures Patch(Patch(Patch(db, gone, map[]), gone, early), gone, own) == Patch(db, gone, early + own)
  {
  }

  lemma SharedAddition(db: Database, early: set<Key>, own: set<Key>,
                                          k0: Database, k1: Database, k2: Database, kept: Database)
    requires kept.Keys !! early && kept.Keys !! own && kept == k0 + k1 + k2
    ensures Patch(Patch(Patch(db, {}, k0), early, k1), own, k2) == Patch(db, early + own, kept)
  {
    ComposePatches(db, {}, k0, early, k1);
    ComposePatches(db, {} + early, k0 + k1, own, k2);
  }

  lemma {:induction false} OfferThrice(canon: Notation, db: Database, itf: string, addr: string, length: nat,
                                       ok: Answers)
    ensures Offer(canon, db, itf, addr, length, ok.list || ok.ip || ok.length)
         == Offer(canon, db, itf, addr, length, ok.list) + Offer(canon, db, itf, addr, length, ok.ip)
            + Offer(canon, db, itf, addr, length, ok.length)
  {
  }

  lemma {:induction false} PatchOnceIs(canon: Notation, db: Database, db': Database, cur: Cursor, itf: string, ok: bool)
    requires HasInterface(db', itf) <==> HasInterface(db, itf)
    ensures PatchOnce(canon, db', cur, itf, ok)
         == Patch(db', Bound(canon, db, itf, cur.oldAddr, cur.oldLen).Keys,
                  Offer(canon, db, itf, cur.newAddr, cur.newLen, ok))
  {
  }

  /** Three patches that share the removals; the first adds nothing and the removals spare the second. */
  lemma {:induction false} CreatePatches(canon: Notation, db: Database, a: Cursor, b: Cursor, c: Cursor, itf: string,
                                         ok: Answers)
    requires canon(a.newAddr).None?
    requires a.oldAddr == b.oldAddr == c.oldAddr && a.oldLen == b.oldLen == c.oldLen
    requires b.newAddr == c.newAddr
    requires Canonical(canon, b.newAddr) !! Canonical(canon, a.oldAddr)
    ensures PatchOnce(canon, PatchOnce(canon, PatchOnce(canon, db, a, itf, ok.list), b, itf, ok.ip), c, itf, ok.length)
         == Patch(db, Bound(canon, db, itf, a.oldAddr, a.oldLen).Keys,
                  Offer(canon, db, itf, b.newAddr, b.newLen, ok.ip)
                  + Offer(canon, db, itf, c.newAddr, c.newLen, ok.length))
  {
    var gone := Bound(canon, db, itf, a.oldAddr, a.oldLen).Keys;
    var early := Offer(canon, db, itf, b.newAddr, b.newLen, ok.ip);
    var own := Offer(canon, db, itf, c.newAddr, c.newLen, ok.length);
    var db1 := Patch(db, gone, map[]);
    PatchSame(db, gone, map[]);
    assert PatchOnce(canon, db, a, itf, ok.list) == db1;
    var db2 := Patch(db1, gone, early);
    PatchSame(db1, gone, early);
    PatchOnceIs(canon, db, db1, b, itf, ok.ip);
    PatchOnceIs(canon, db, db2, c, itf, ok.length);
    SharedRemoval(db, gone, early, own);
  }

  /** Three patches that offer the same addition; the first removes nothing and the removals spare it. */
  lemma {:induction false} DeletePatches(canon: Notation, db: Database, a: Cursor, b: Cursor, c: Cursor, itf: string,
                                         ok: Answers)
    requires canon(a.oldAddr).None?
    requires a.newAddr == b.newAddr == c.newAddr && a.newLen == b.newLen == c.newLen
    requires b.oldAddr == c.oldAddr && Canonical(canon, b.oldAddr) !! Canonical(canon, a.newAddr)
    ensures PatchOnce(canon, PatchOnce(canon, PatchOnce(canon, db, a, itf, ok.list), b, itf, ok.ip), c, itf, ok.length)
         == Patch(db, (Bound(canon, db, itf, b.oldAddr, b.oldLen) + Bound(canon, db, itf, c.oldAddr, c.oldLen)).Keys,
                  Offer(canon, db, itf, a.newAddr, a.newLen, ok.list || ok.ip || ok.length))
  {
    var k0 := Offer(canon, db, itf, a.newAddr, a.newLen, ok.list);
    var k1 := Offer(canon, db, itf, a.newAddr, a.newLen, ok.ip);
    var k2 := Offer(canon, db, itf, a.newAddr, a.newLen, ok.length);
    var kept := Offer(canon, db, itf, a.newAddr, a.newLen, ok.list || ok.ip || ok.length);
    var early := Bound(canon, db, itf, b.oldAddr, b.oldLen).Keys;
    var own := Bound(canon, db, itf, c.oldAddr, c.oldLen).Keys;
    var db1 := Patch(db, {}, k0);
    PatchSame(db, {}, k0);
    assert PatchOnce(canon, db, a, itf, ok.list) == db1;
    var db2 := Patch(db1, early, k1);
    PatchSame(db1, early, k1);
    PatchOnceIs(canon, db, db1, b, itf, ok.ip);
    PatchOnceIs(canon, db, db2, c, itf, ok.length);
    OfferThrice(canon, db, itf, a.newAddr, a.newLen, ok);
    SharedAddition(db, early, own, k0, k1, k2, kept);
  }

  // ---------- A whole batch ----------

  function Interfaces(es: seq<Entry>): set<string> {
    set k | 0 <= k < |es| :: es[k].itf
  }

  /** The addresses in play only shrink along a batch. */
  lemma {:induction false} NextAddresses(canon: Notation, cur: Cursor, es: seq<Entry>)
    requires es != []
    ensures NewAddresses(canon, Next(cur, es[0]), es[1..]) <= NewAddresses(canon, cur, es)
    ensures OldAddresses(canon, Next(cur, es[0]), es[1..]) <= OldAddresses(canon, cur, es)
  {
  }

  ghost predicate AddsWithin(adds: Database, addresses: set<string>, itfs: set<string>) {
    forall k :: k in adds ==>
      k.BindingKey? && k.address in addresses && k.itf in itfs && adds[k] == L3(k.itf, k.address, k.length)
  }

  ghost predicate RemsWithin(rems: set<Key>, addresses: set<string>, itfs: set<string>) {
    forall k :: k in rems ==> k.BindingKey? && k.address in addresses && k.itf in itfs
  }

  lemma {:induction false} EntryWithin(canon: Notation, db: Database, cur: Cursor, es: seq<Entry>)
    requires es != []
    ensures AddsWithin(AddsOf(canon, db, cur, es[0]), NewAddresses(canon, cur, es), Interfaces(es))
    ensures RemsWithin(RemsOf(canon, db, cur, es[0]), OldAddresses(canon, cur, es), Interfaces(es))
    ensures Interfaces(es[1..]) <= Interfaces(es)
  {
    assert es[0].itf in Interfaces(es);
  }

  /** A batch only writes bindings of its created addresses and only removes those of its deleted ones. */
  lemma {:induction false} TouchedKeys(canon: Notation, db: Database, cur: Cursor, es: seq<Entry>)
    ensures AddsWithin(Adds(canon, db, cur, es), NewAddresses(canon, cur, es), Interfaces(es))
    ensures RemsWithin(Rems(canon, db, cur, es), OldAddresses(canon, cur, es), Interfaces(es))
    decreases |es|
  {
    if es != [] {
      TouchedKeys(canon, db, Next(cur, es[0]), es[1..]);
      NextAddresses(canon, cur, es);
      EntryWithin(canon, db, cur, es);
    }
  }

  lemma {:induction false} SameEntryEffect(canon: Notation, db: Database, db': Database, cur: Cursor, e: Entry)
    requires HasInterface(db', e.itf) <==> HasInterface(db, e.itf)
    ensures AddsOf(canon, db', cur, e) == AddsOf(canon, db, cur, e)
    ensures RemsOf(canon, db', cur, e) == RemsOf(canon, db, cur, e)
  {
    assert forall addr, length :: Bound(canon, db', e.itf, addr, length) == Bound(canon, db, e.itf, addr, length);
  }

  lemma {:induction false} SameInterfacesSameEffect(canon: Notation, db: Database, db': Database, cur: Cursor,
                                                    es: seq<Entry>)
    requires forall itf :: HasInterface(db', itf) <==> HasInterface(db, itf)
    ensures Adds(canon, db', cur, es) == Adds(canon, db, cur, es)
    ensures Rems(canon, db', cur, es) == Rems(canon, db, cur, es)
    decreases |es|
  {
    if es != [] {
      SameEntryEffect(canon, db, db', cur, es[0]);
      SameInterfacesSameEffect(canon, db, db', Next(cur, es[0]), es[1..]);
    }
  }

  lemma ComposePatches(db: Database, r1: set<Key>, a1: Database, r2: set<Key>, a2: Database)
    requires a1.Keys !! r2
    ensures Patch(Patch(db, r1, a1), r2, a2) == Patch(db, r1 + r2, a1 + a2)
  {
  }

  /** The effects of the first entry and of the others are independent. */
  lemma {:induction false} HeadAndTail(canon: Notation, db: Database, cur: Cursor, es: seq<Entry>, db': Database)
    requires es != [] && NewAddresses(canon, cur, es) !! OldAddresses(canon, cur, es)
    requires db' == Patch(db, RemsOf(canon, db, cur, es[0]), AddsOf(canon, db, cur, es[0]))
    ensures Patch(db', Rems(canon, db', Next(cur, es[0]), es[1..]), Adds(canon, db', Next(cur, es[0]), es[1..]))
         == Patch(db, Rems(canon, db, cur, es), Adds(canon, db, cur, es))
  {
    var next := Next(cur, es[0]);
    var r, a := RemsOf(canon, db, cur, es[0]), AddsOf(canon, db, cur, es[0]);
    EntryWithin(canon, db, cur, es);
    PatchSame(db, r, a);
    SameInterfacesSameEffect(canon, db, db', next, es[1..]);
    NextAddresses(canon, cur, es);
    TouchedKeys(canon, db, next, es[1..]);
    ComposePatches(db, r, a, Rems(canon, db, next, es[1..]), Adds(canon, db, next, es[1..]));
  }

  lemma {:induction false} BatchSettles(canon: Notation, db: Database, cur: Cursor, es: seq<Entry>)
    requires canon("").None?
    requires NewAddresses(canon, cur, es) !! OldAddresses(canon, cur, es)
    ensures Settle(canon, db, cur, Batch(es)) == Patch(db, Rems(canon, db, cur, es), Adds(canon, db, cur, es))
    decreases |es|
  {
    if es != [] {
      var db' := Patch(db, RemsOf(canon, db, cur, es[0]), AddsOf(canon, db, cur, es[0]));
      EntryEffect(canon, db, cur, es[0], Batch(es[1..]));
      NextAddresses(canon, cur, es);
      BatchSettles(canon, db', Next(cur, es[0]), es[1..]);
      HeadAndTail(canon, db, cur, es, db');
    }
  }

  lemma {:induction false} BatchNamed(es: seq<Entry>)
    requires Named(es)
    ensures NamedChanges(Batch(es))
  {
    if es != [] {
      BatchNamed(es[1..]);
    }
  }

  /** The condition on a batch: no address is both created and deleted in it. */
  ghost predicate Unclashing(canon: Notation, es: seq<Entry>) {
    Addresses(canon, es, true) !! Addresses(canon, es, false)
  }

  /**
   * Exact effect of a batch that mixes creations and deletions, over any interfaces, in any order and
   * number, with any writes refused: the sticky variables notwithstanding, it is one removal set and one
   * map of additions.
   */
  lemma {:induction false} MixedBatchExact(canon: Notation, db: Database, es: seq<Entry>)
    requires canon("").None? && Named(es) && Unclashing(canon, es)
    ensures Result(canon, db, es) == Patch(db, Rems(canon, db, START, es), Adds(canon, db, START, es))
    ensures Adds(canon, db, START, es).Keys !! Rems(canon, db, START, es)
  {
    BatchNamed(es);
    RunSettles(canon, db, START, Ok, Batch(es));
    BatchSettles(canon, db, START, es);
    TouchedKeys(canon, db, START, es);
  }
}
