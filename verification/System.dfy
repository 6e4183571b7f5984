/**
 * The plugin as a whole: address, NAT and interface commits, crashes, restarts and health-check steps in any
 * order, from start-up on, with the database keyed by values and, beside it, by the texts the code uses.
 */
module System {
  import opened Wrappers
  import opened Prefix
  import opened ObjectModel
  import opened AddressChange
  import opened AddressBatch
  import opened AddressEffects
  import opened AddressIntent
  import Netmask
  import NatMapping
  import InterfaceConfig
  import Recovery
  import Transactions

  /** The configured addresses: interface and canonical address to the length leaf. */
  type Datastore = map<(string, string), Length>

  datatype Sys = Sys(world: Recovery.World, text: TextDatabase, table: NatMapping.Table, configured: Datastore)

  datatype SysAction =
    | AddressCommit(entries: seq<Entry>)
    | NatCommit(leaves: seq<NatMapping.LeafChange>, garbage: nat, accepted: bool)
    | InterfaceCommit(changes: seq<InterfaceConfig.IfChange>, state: bool, accepted: bool)
    | Environment(action: Recovery.Action)

  /** The leaf alone fixes the length. */
  predicate Known(l: Length) {
    l.Plen? || Netmask.LengthOfMaskText(l.text).Some?
  }

  function PairOf(canon: Notation, e: Entry): (string, string) {
    (e.itf, match canon(e.ip) case Some(a) => a case None => "")
  }

  /**
   * The address commits the datastore admits: it has each address of an interface once, in whatever text,
   * deletes what is there and creates what is not. VPP may refuse writes, but not the one of a created binding.
   */
  ghost predicate Admissible(canon: Notation, s: Sys, es: seq<Entry>) {
    && Named(es) && Local(es)
    && (forall k :: 0 <= k < |es| ==> AdmissibleEntry(canon, s, es[k]))
    && (forall j, k :: 0 <= j < k < |es| ==> PairOf(canon, es[j]) != PairOf(canon, es[k]))
  }

  ghost predicate AdmissibleEntry(canon: Notation, s: Sys, e: Entry) {
    && HasInterface(s.world.om, e.itf) && canon(e.ip).Some? && Known(e.length)
    && if e.create then PairOf(canon, e) !in s.configured && e.accepted.length
       else PairOf(canon, e) in s.configured && s.configured[PairOf(canon, e)] == e.length
  }

  function Configure(canon: Notation, ds: Datastore, es: seq<Entry>): Datastore
    decreases |es|
  {
    if es == [] then ds
    else if es[0].create then Configure(canon, ds[PairOf(canon, es[0]) := es[0].length], es[1..])
    else Configure(canon, ds - {PairOf(canon, es[0])}, es[1..])
  }

  /** The interface commits that send all they set, under a name that is no other object's key. */
  ghost predicate Sendable(db: Database, changes: seq<InterfaceConfig.IfChange>, accepted: bool) {
    && PlainName(InterfaceConfig.LastName(changes))
    && forall n :: InterfaceConfig.Written(db, changes, accepted) != Some(n) ==>
         InterfaceConfig.Unmoved(db, InterfaceConfig.Handled(db, changes), n)
  }

  ghost predicate Allowed(canon: Notation, s: Sys, a: SysAction) {
    match a
    case AddressCommit(es) => Admissible(canon, s, es)
    case NatCommit(_, _, _) => true
    case InterfaceCommit(changes, _, accepted) => Sendable(s.world.om, changes, accepted)
    case Environment(e) => !e.Commit? && Recovery.Enabled(s.world, e)
  }

  /**
   * The commands a commit issues. A NAT callback that throws issues none: runs go on after it, so they include
   * all those in which the plugin survives the exception (Transactions counts it as a crash).
   */
  function Commands(canon: Notation, s: Sys, a: SysAction): seq<Op> {
    match a
    case AddressCommit(es) => Run(canon, s.world.om, START, Ok, Batch(es)).ops
    case NatCommit(leaves, garbage, accepted) =>
      NatMapping.NatCallback(NatMapping.MakePrefix(canon), garbage, s.table, Verify, leaves, accepted).ops
    case InterfaceCommit(changes, state, accepted) =>
      var out := InterfaceConfig.Ietf(s.world.om, state, Verify, changes, accepted);
      if out.IfOutcome? then out.ops else []
    case Environment(_) => []
  }

  function Table(canon: Notation, s: Sys, a: SysAction): NatMapping.Table {
    match a
    case NatCommit(leaves, garbage, accepted) =>
      NatMapping.NatCallback(NatMapping.MakePrefix(canon), garbage, s.table, Verify, leaves, accepted).table
    case _ => s.table
  }

  ghost function Step(canon: Notation, s: Sys, a: SysAction): Sys
    requires Allowed(canon, s, a)
  {
    var ops := Commands(canon, s, a);
    var world := Recovery.Next(s.world, if a.Environment? then a.action else Recovery.Commit(ops));
    var configured := if a.AddressCommit? then Configure(canon, s.configured, a.entries) else s.configured;
    Sys(world, TextApplyAll(s.text, ops), Table(canon, s, a), configured)
  }

  ghost predicate IsRun(canon: Notation, s: Sys, run: seq<SysAction>)
    decreases |run|
  {
    run == [] || (Allowed(canon, s, run[0]) && IsRun(canon, Step(canon, s, run[0]), run[1..]))
  }

  ghost function After(canon: Notation, s: Sys, run: seq<SysAction>): Sys
    requires IsRun(canon, s, run)
    decreases |run|
  {
    if run == [] then s else After(canon, Step(canon, s, run[0]), run[1..])
  }

  // ---------- The invariant ----------

  function ConfiguredKey(pair: (string, string), l: Length): Key {
    BindingKey(pair.0, pair.1, LengthOf(l, 0))
  }

  /** The database holds the binding of a configured address. */
  ghost predicate CoveredAt(db: Database, pair: (string, string), l: Length) {
    Known(l) && Holds(db, ConfiguredKey(pair, l))
  }

  ghost predicate Covered(ds: Datastore, db: Database) {
    forall pair :: pair in ds ==> CoveredAt(db, pair, ds[pair])
  }

  /** The binding a configured address asks for. */
  function AskedBinding(pair: (string, string), l: Length): Key
    requires AskedLength(l).Some?
  {
    BindingKey(pair.0, pair.1, AskedLength(l).value)
  }

  /** Every address configured with a number, or with a netmask of whole octets, is bound under the length asked for. */
  ghost predicate BoundAsAsked(ds: Datastore, db: Database) {
    forall pair :: pair in ds && OnBoundary(ds[pair]) ==> Holds(db, AskedBinding(pair, ds[pair]))
  }

  lemma CoveredIsBoundAsAsked(ds: Datastore, db: Database)
    requires Covered(ds, db)
    ensures BoundAsAsked(ds, db)
  {
    forall pair | pair in ds && OnBoundary(ds[pair]) ensures Holds(db, AskedBinding(pair, ds[pair])) {
      assert CoveredAt(db, pair, ds[pair]);
      AskedLengthMetIff(ds[pair], 0);
    }
  }

  /** The same in the database keyed by text. */
  ghost predicate TextCovered(ds: Datastore, text: TextDatabase) {
    forall pair :: pair in ds ==> TextCoveredAt(text, pair, ds[pair])
  }

  ghost predicate TextCoveredAt(text: TextDatabase, pair: (string, string), l: Length) {
    var key := ConfiguredKey(pair, l);
    KeyText(key) in text && text[KeyText(key)] == L3(key.itf, key.address, key.length)
  }

  ghost predicate SysInv(s: Sys) {
    Recovery.Inv(s.world) && Represents(s.text, s.world.om) && Intact(s)
  }

  // ---------- Address commits ----------

  lemma {:induction false} AdmissibleUnclashing(canon: Notation, s: Sys, es: seq<Entry>)
    requires Admissible(canon, s, es)
    ensures Unclashing(canon, es)
  {
    if AllOf(es, true) {
      NoAddresses(canon, es, true);
    } else if AllOf(es, false) {
      NoAddresses(canon, es, false);
    } else {
      forall a | a in Addresses(canon, es, true) ensures a !in Addresses(canon, es, false) {
        AddressFromEntry(canon, es, true, a);
        var j :| 0 <= j < |es| && es[j].create && canon(es[j].ip) == Some(a);
        forall k | 0 <= k < |es| && !es[k].create ensures canon(es[k].ip) != Some(a) {
          assert AdmissibleEntry(canon, s, es[j]) && AdmissibleEntry(canon, s, es[k]);
        }
        NotAnAddress(canon, es, false, a);
      }
    }
  }

  /** After a batch a pair is configured as its entry says, or as before when no entry names it. */
  lemma {:induction false} ConfigureAt(canon: Notation, ds: Datastore, es: seq<Entry>, pair: (string, string))
    requires forall j, k :: 0 <= j < k < |es| ==> PairOf(canon, es[j]) != PairOf(canon, es[k])
    ensures (forall k :: 0 <= k < |es| ==> PairOf(canon, es[k]) != pair) ==>
              && (pair in Configure(canon, ds, es) <==> pair in ds)
              && (pair in ds ==> Configure(canon, ds, es)[pair] == ds[pair])
    ensures forall k :: 0 <= k < |es| && PairOf(canon, es[k]) == pair ==>
              && (pair in Configure(canon, ds, es) <==> es[k].create)
              && (es[k].create ==> Configure(canon, ds, es)[pair] == es[k].length)
    decreases |es|
  {
    if es != [] {
      var first := PairOf(canon, es[0]);
      var next := if es[0].create then ds[first := es[0].length] else ds - {first};
      var rest := es[1..];
      assert forall k :: 0 <= k < |rest| ==> rest[k] == es[k + 1];
      ConfigureAt(canon, next, rest, pair);
      assert forall k :: 0 < k < |es| ==> es[k] == rest[k - 1];
    }
  }

  lemma KnownLength(l: Length, previous: nat)
    requires Known(l)
    ensures LengthOf(l, previous) == LengthOf(l, 0)
  {
  }

  lemma {:induction false} AddressCommitCovers(canon: Notation, s: Sys, es: seq<Entry>, pair: (string, string))
    requires canon("").None? && Covered(s.configured, s.world.om) && Admissible(canon, s, es)
    requires pair in Configure(canon, s.configured, es)
    ensures var after, l := Result(canon, s.world.om, es), Configure(canon, s.configured, es)[pair];
            CoveredAt(after, pair, l) && (OnBoundary(l) ==> Holds(after, AskedBinding(pair, l)))
  {
    CommitCovers(canon, s, es, pair);
    var l := Configure(canon, s.configured, es)[pair];
    if OnBoundary(l) {
      AskedLengthMetIff(l, 0);
    }
  }

  lemma {:induction false} CommitCovers(canon: Notation, s: Sys, es: seq<Entry>, pair: (string, string))
    requires canon("").None? && Covered(s.configured, s.world.om) && Admissible(canon, s, es)
    requires pair in Configure(canon, s.configured, es)
    ensures CoveredAt(Result(canon, s.world.om, es), pair, Configure(canon, s.configured, es)[pair])
  {
    var db := s.world.om;
    AdmissibleUnclashing(canon, s, es);
    ConfigureAt(canon, s.configured, es, pair);
    if k :| 0 <= k < |es| && PairOf(canon, es[k]) == pair {
      assert AdmissibleEntry(canon, s, es[k]);
      CreatedPresentDeletedAbsent(canon, db, es, k);
      KnownLength(es[k].length, LengthInForce(es, k, true));
    } else {
      assert CoveredAt(db, pair, s.configured[pair]);
      var key := ConfiguredKey(pair, s.configured[pair]);
      forall k | 0 <= k < |es|
        ensures !(es[k].itf == key.itf && canon(es[k].ip) == Some(key.address))
      {
        assert AdmissibleEntry(canon, s, es[k]);
      }
      LocalBatchFrame(canon, db, es, key);
    }
  }

  /**
   * The other netmasks break the promise: a run's commit of one such address leaves it configured and not bound
   * under the length asked for, unless that binding was there before.
   */
  lemma {:induction false} OffBoundaryCommitUncovered(canon: Notation, s: Sys, e: Entry)
    requires canon("").None? && e.create && Allowed(canon, s, AddressCommit([e]))
    requires AskedLength(e.length).Some? && !OnBoundary(e.length)
    requires AskedBinding(PairOf(canon, e), e.length) !in s.world.om
    ensures var t := Step(canon, s, AddressCommit([e]));
            && PairOf(canon, e) in t.configured && t.configured[PairOf(canon, e)] == e.length
            && AskedBinding(PairOf(canon, e), e.length) !in t.world.om
  {
    SingleCommit(canon, s, e);
    OffBoundaryMaskMisbinds(canon, s.world.om, e);
  }

  lemma {:induction false} SingleCommit(canon: Notation, s: Sys, e: Entry)
    requires e.create && Allowed(canon, s, AddressCommit([e]))
    ensures var t, pair := Step(canon, s, AddressCommit([e])), PairOf(canon, e);
            && t.world.om == Result(canon, s.world.om, [e]) && pair in t.configured && t.configured[pair] == e.length
    ensures AdmissibleEntry(canon, s, e) && e.itf != ""
  {
    assert [e][0] == e;
    ConfigureAt(canon, s.configured, [e], PairOf(canon, e));
  }

  // ---------- Two texts of one address ----------

  /** A datastore keyed by text, as YANG compares keys, is served: each address has the binding its entry leads to. */
  ghost predicate TextsServed(canon: Notation, ds: Datastore, db: Database) {
    forall pair :: pair in ds ==> TextServed(canon, db, pair, ds[pair])
  }

  ghost predicate TextServed(canon: Notation, db: Database, pair: (string, string), l: Length) {
    canon(pair.1).Some? && CoveredAt(db, (pair.0, canon(pair.1).value), l)
  }

  /**
   * One binding serves all texts of an address. Of a datastore that holds two texts of one address, all served,
   * deleting one leaves the other served if and only if its length is neither that of the deleted entry nor 0.
   */
  lemma {:induction false} TwoTextsOneBinding(canon: Notation, ds: Datastore, db: Database, e: Entry, other: string)
    requires canon("").None? && !e.create && e.itf != "" && HasInterface(db, e.itf) && TextsServed(canon, ds, db)
    requires (e.itf, e.ip) in ds && ds[(e.itf, e.ip)] == e.length
    requires other != e.ip && canon(other) == canon(e.ip) && (e.itf, other) in ds
    ensures var left := ds - {(e.itf, e.ip)};
            && (e.itf, other) in left
            && (TextServed(canon, Result(canon, db, [e]), (e.itf, other), left[(e.itf, other)]) <==>
                  LengthOf(left[(e.itf, other)], 0) !in {0, LengthOf(e.length, 0)})
  {
    assert TextServed(canon, db, (e.itf, e.ip), e.length);
    assert TextServed(canon, db, (e.itf, other), ds[(e.itf, other)]);
    DeletedAt(canon, db, e, LengthOf(ds[(e.itf, other)], 0));
  }

  /** One deletion removes its address under length 0 and under its own length. */
  lemma {:induction false} DeletedAt(canon: Notation, db: Database, e: Entry, length: nat)
    requires canon("").None? && !e.create && e.itf != "" && Bindable(canon, db, e)
    ensures var key := BindingKey(e.itf, canon(e.ip).value, length);
            && (key in Result(canon, db, [e]) <==> key in db && length !in {0, LengthOf(e.length, 0)})
            && (key in Result(canon, db, [e]) ==> Result(canon, db, [e])[key] == db[key])
  {
    var es, key := [e], BindingKey(e.itf, canon(e.ip).value, length);
    NoAddresses(canon, es, false);
    assert es[0] == e && LengthInForce(es, 0, false) == 0 && LastAddress(es, 0, true) == "";
    MixedBatchByEntries(canon, db, es, key);
    assert Unbinds(canon, db, es, 0, key) <==> length in {0, LengthOf(e.length, 0)};
  }

  // ---------- What each commit leaves alone ----------

  /**
   * No address batch, of any shape and with any writes refused, disturbs a NAT entry, in the database keyed by
   * values and in the one keyed by texts.
   */
  lemma {:induction false} AddressBatchKeepsAgreement(canon: Notation, table: NatMapping.Table, text: TextDatabase,
                                                      db: Database, changes: seq<Change>)
    requires Lawful(canon) && NatMapping.Agree(table, db) && Represents(text, db)
    ensures var ops := Run(canon, db, START, Ok, changes).ops;
            && NatMapping.Agree(table, ApplyAll(db, ops)) && Represents(TextApplyAll(text, ops), ApplyAll(db, ops))
            && NatMapping.TextAgree(table, TextApplyAll(text, ops))
  {
    var ops := Run(canon, db, START, Ok, changes).ops;
    OnlyBindingCommands(canon, db, START, Ok, changes);
    forall i: nat ensures NatMapping.AgreeAt(table, ApplyAll(db, ops), i) {
      assert NatMapping.AgreeAt(table, db, i);
      UntouchedKey(db, ops, MappingKey(i));
    }
    forall i | 0 <= i < |ops| ensures CleanKey(ops[i].key) {
      assert BindingOp(ops[i]);
    }
    TextRefines(text, db, ops);
    TextAgreement(TextApplyAll(text, ops), ApplyAll(db, ops), table);
  }

  /** No NAT batch disturbs an address binding, in either database. */
  lemma {:induction false} NatBatchKeepsCover(parse: NatMapping.Parser, garbage: nat, table: NatMapping.Table,
                                              text: TextDatabase, db: Database, leaves: seq<NatMapping.LeafChange>,
                                              accepted: bool, ds: Datastore)
    requires Covered(ds, db) && Represents(text, db)
    ensures var ops := NatMapping.NatCallback(parse, garbage, table, Verify, leaves, accepted).ops;
            && Covered(ds, ApplyAll(db, ops)) && Represents(TextApplyAll(text, ops), ApplyAll(db, ops))
            && TextCovered(ds, TextApplyAll(text, ops))
  {
    var ops := NatMapping.NatCallback(parse, garbage, table, Verify, leaves, accepted).ops;
    OthersKeepCover(ds, db, ops);
    TextRefines(text, db, ops);
    TextCover(TextApplyAll(text, ops), ApplyAll(db, ops), ds);
  }

  lemma OthersKeepCover(ds: Datastore, db: Database, ops: seq<Op>)
    requires Covered(ds, db) && forall op :: op in ops ==> !op.key.BindingKey?
    ensures Covered(ds, ApplyAll(db, ops))
  {
    forall pair | pair in ds ensures CoveredAt(ApplyAll(db, ops), pair, ds[pair]) {
      assert CoveredAt(db, pair, ds[pair]);
      UntouchedKey(db, ops, ConfiguredKey(pair, ds[pair]));
    }
  }

  lemma InterfacesKeepAgreement(table: NatMapping.Table, db: Database, ops: seq<Op>)
    requires NatMapping.Agree(table, db) && forall op :: op in ops ==> op.key.InterfaceKey?
    ensures NatMapping.Agree(table, ApplyAll(db, ops))
  {
    forall i: nat ensures NatMapping.AgreeAt(table, ApplyAll(db, ops), i) {
      assert NatMapping.AgreeAt(table, db, i);
      UntouchedKey(db, ops, MappingKey(i));
    }
  }

  // ---------- The database keyed by text ----------

  /** Every commit of a run issues commands on clean keys only. */
  lemma {:induction false} CommandsClean(canon: Notation, s: Sys, a: SysAction)
    requires Lawful(canon) && Represents(s.text, s.world.om) && Allowed(canon, s, a)
    ensures forall op :: op in Commands(canon, s, a) ==> CleanKey(op.key)
  {
    match a
    case AddressCommit(es) => OnlyBindingCommands(canon, s.world.om, START, Ok, Batch(es));
    case InterfaceCommit(changes, state, accepted) =>
      InterfaceConfig.InterfaceCommands(s.world.om, state, changes, accepted);
    case _ =>
  }

  lemma {:induction false} TextFollows(canon: Notation, s: Sys, a: SysAction)
    requires Lawful(canon) && Represents(s.text, s.world.om) && Allowed(canon, s, a)
    ensures Represents(Step(canon, s, a).text, Step(canon, s, a).world.om)
  {
    CommandsClean(canon, s, a);
    TextRefines(s.text, s.world.om, Commands(canon, s, a));
  }

  /** The NAT table agrees with the database keyed by text: no other object hides behind an index. */
  lemma TextAgreement(text: TextDatabase, db: Database, table: NatMapping.Table)
    requires Represents(text, db) && NatMapping.Agree(table, db)
    ensures NatMapping.TextAgree(table, text)
  {
    forall i: NatMapping.Uint32 ensures NatMapping.TextAgreeAt(table, text, i) {
      assert NatMapping.AgreeAt(table, db, i);
      var t := KeyText(MappingKey(i));
      if t in text {
        var k :| k in db && KeyText(k) == t;
        KeyTextInjective(k, MappingKey(i));
      }
    }
  }

  lemma TextCover(text: TextDatabase, db: Database, ds: Datastore)
    requires Represents(text, db) && Covered(ds, db)
    ensures TextCovered(ds, text)
  {
    forall pair | pair in ds ensures TextCoveredAt(text, pair, ds[pair]) {
      assert CoveredAt(db, pair, ds[pair]);
    }
  }

  // ---------- Every run ----------

  /** An interface commit that is allowed leaves in the database just what its commands say. */
  lemma {:induction false} InterfaceCommitIsItsCommands(canon: Notation, s: Sys, a: SysAction)
    requires a.InterfaceCommit? && Allowed(canon, s, a)
    ensures var out := InterfaceConfig.Ietf(s.world.om, a.state, Verify, a.changes, a.accepted);
            out.IfOutcome? && out.db == Step(canon, s, a).world.om
  {
    InterfaceConfig.AllSentIff(s.world.om, a.state, a.changes, a.accepted);
  }

  /** A commit as the request sysrepo delivers for verification. */
  function RequestOf(a: SysAction): Transactions.Request
    requires !a.Environment?
  {
    match a
    case AddressCommit(es) => Transactions.Addresses(Batch(es))
    case NatCommit(leaves, garbage, accepted) => Transactions.Mappings(leaves, garbage, accepted)
    case InterfaceCommit(changes, state, accepted) => Transactions.IetfInterfaces(changes, state, accepted)
  }

  /**
   * A commit of a run leaves in the database and the NAT table what the callback leaves there on VERIFY, and, over a
   * connection to the running process, does to VPP what the callback's commands say; where the callback throws,
   * nothing changes.
   */
  lemma {:induction false} CommitIsDelivery(canon: Notation, s: Sys, a: SysAction)
    requires !a.Environment? && Allowed(canon, s, a)
    ensures var before, d := Transactions.Store(s.world.om, s.table), Transactions.Delivery(Verify, RequestOf(a));
            var t, after := Step(canon, s, a), Transactions.Deliver(canon, before, d);
            && (after.Store? ==> Transactions.Store(t.world.om, t.table) == after)
            && (after.Dead? ==> Transactions.Store(t.world.om, t.table) == before)
            && (Recovery.Attached(s.world) && after.Store? ==>
                  && Transactions.Answer(canon, before, d).Some?
                  && t.world.vpp.config == ApplyAll(s.world.vpp.config, Transactions.Answer(canon, before, d).value.1))
  {
    if a.InterfaceCommit? {
      InterfaceCommitIsItsCommands(canon, s, a);
    }
  }

  /** The two guarantees about the database, by value. */
  ghost predicate Intact(s: Sys) {
    NatMapping.Agree(s.table, s.world.om) && Covered(s.configured, s.world.om)
  }

  lemma {:induction false} AddressStep(canon: Notation, s: Sys, a: SysAction)
    requires Lawful(canon) && Intact(s) && Represents(s.text, s.world.om) && a.AddressCommit? && Allowed(canon, s, a)
    ensures Intact(Step(canon, s, a))
  {
    AddressBatchKeepsAgreement(canon, s.table, s.text, s.world.om, Batch(a.entries));
    forall pair | pair in Configure(canon, s.configured, a.entries)
      ensures CoveredAt(Result(canon, s.world.om, a.entries), pair, Configure(canon, s.configured, a.entries)[pair])
    {
      AddressCommitCovers(canon, s, a.entries, pair);
    }
  }

  lemma {:induction false} NatStep(canon: Notation, s: Sys, a: SysAction)
    requires Intact(s) && Represents(s.text, s.world.om) && a.NatCommit?
    ensures Intact(Step(canon, s, a))
  {
    var parse := NatMapping.MakePrefix(canon);
    NatMapping.CallbackKeepsAgreement(parse, a.garbage, s.table, s.world.om, Verify, a.leaves, a.accepted);
    NatBatchKeepsCover(parse, a.garbage, s.table, s.text, s.world.om, a.leaves, a.accepted, s.configured);
  }

  lemma {:induction false} InterfaceStep(canon: Notation, s: Sys, a: SysAction)
    requires Intact(s) && a.InterfaceCommit? && Allowed(canon, s, a)
    ensures Intact(Step(canon, s, a))
  {
    InterfaceConfig.InterfaceCommands(s.world.om, a.state, a.changes, a.accepted);
    InterfacesKeepAgreement(s.table, s.world.om, Commands(canon, s, a));
    OthersKeepCover(s.configured, s.world.om, Commands(canon, s, a));
  }

  lemma {:induction false} StepKeepsInv(canon: Notation, s: Sys, a: SysAction)
    requires Lawful(canon) && SysInv(s) && Allowed(canon, s, a)
    ensures SysInv(Step(canon, s, a))
  {
    TextFollows(canon, s, a);
    Recovery.StepKeepsInv(s.world, if a.Environment? then a.action else Recovery.Commit(Commands(canon, s, a)));
    match a
    case AddressCommit(_) => AddressStep(canon, s, a);
    case NatCommit(_, _, _) => NatStep(canon, s, a);
    case InterfaceCommit(_, _, _) => InterfaceStep(canon, s, a);
    case Environment(_) =>
  }

  lemma {:induction false} RunKeepsInv(canon: Notation, s: Sys, run: seq<SysAction>)
    requires Lawful(canon) && SysInv(s) && IsRun(canon, s, run)
    ensures SysInv(After(canon, s, run))
    decreases |run|
  {
    if run != [] {
      StepKeepsInv(canon, s, run[0]);
      RunKeepsInv(canon, Step(canon, s, run[0]), run[1..]);
    }
  }

  /**
   * End to end: in every run after an undisturbed start-up, whatever the order of commits, crashes, restarts
   * and health-check steps, every configured address has its binding in the database, under the length it asks
   * for where that is a number or a netmask of whole octets, and the NAT table agrees with the database, by value
   * and by the texts the code uses as keys; and all this holds for VPP itself whenever the recorded pid is the live
   * one and no check is reconnecting.
   */
  lemma {:induction false} EndToEnd(canon: Notation, s: Sys, run: seq<SysAction>)
    requires Lawful(canon) && IsRun(canon, s, run)
    requires Recovery.Booted(s.world) && Represents(s.text, s.world.om)
    requires NatMapping.Agree(s.table, s.world.om) && Covered(s.configured, s.world.om)
    ensures var e := After(canon, s, run);
            && Covered(e.configured, e.world.om) && BoundAsAsked(e.configured, e.world.om)
            && NatMapping.Agree(e.table, e.world.om)
            && Represents(e.text, e.world.om)
            && TextCovered(e.configured, e.text) && NatMapping.TextAgree(e.table, e.text)
            && (Recovery.Live(e.world, e.world.recorded) && !Recovery.Reconnecting(e.world) ==>
                  && Covered(e.configured, e.world.vpp.config) && BoundAsAsked(e.configured, e.world.vpp.config)
                  && NatMapping.Agree(e.table, e.world.vpp.config))
  {
    RunKeepsInv(canon, s, run);
    var e := After(canon, s, run);
    TextAgreement(e.text, e.world.om, e.table);
    TextCover(e.text, e.world.om, e.configured);
    CoveredIsBoundAsAsked(e.configured, e.world.om);
  }
}
