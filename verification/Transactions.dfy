/**
 * Sysrepo delivers every batch several times: VERIFY and then APPLY or ABORT, and ENABLED at subscription.
 * The callbacks act on some deliveries only (the foreach_change guard of src/plugins/sys_util.h and the tests
 * at the head of each callback).
 */
module Transactions {
  import opened Wrappers
  import opened Prefix
  import opened ObjectModel
  import opened AddressChange
  import AddressOrder
  import NatMapping
  import NatEntries
  import InterfaceConfig

  datatype Request =
    | Addresses(changes: seq<Change>)
    | Mappings(leaves: seq<NatMapping.LeafChange>, garbage: nat, accepted: bool)
    | IetfInterfaces(config: seq<InterfaceConfig.IfChange>, state: bool, accepted: bool)
    | OcInterfaces(config: seq<InterfaceConfig.IfChange>, state: bool, accepted: bool)

  datatype Delivery = Delivery(event: Event, request: Request)

  /** The database and the NAT table, or a plugin that has crashed. */
  datatype Store = Store(db: Database, table: NatMapping.Table) | Dead

  function Deliver(canon: Notation, s: Store, d: Delivery): Store {
    if s.Dead? then s
    else match d.request
      case Addresses(changes) => s.(db := ApplyAll(s.db, Callback(canon, s.db, d.event, changes).ops))
      case Mappings(leaves, garbage, accepted) =>
        var e := NatMapping.NatCallback(NatMapping.MakePrefix(canon), garbage, s.table, d.event, leaves, accepted);
        if e.ret == NatMapping.Exception then Dead else Store(ApplyAll(s.db, e.ops), e.table)
      case IetfInterfaces(config, state, accepted) =>
        Conclude(s, InterfaceConfig.Ietf(s.db, state, d.event, config, accepted))
      case OcInterfaces(config, state, accepted) =>
        Conclude(s, InterfaceConfig.OpenConfig(s.db, state, d.event, config, accepted))
  }

  function Conclude(s: Store, out: InterfaceConfig.IfOutcome): Store
    requires s.Store?
  {
    if out.Crash? then Dead else s.(db := out.db)
  }

  function DeliverAll(canon: Notation, s: Store, ds: seq<Delivery>): Store
    decreases |ds|
  {
    if ds == [] then s else DeliverAll(canon, Deliver(canon, s, ds[0]), ds[1..])
  }

  /** VERIFY counts everywhere, ENABLED for addresses. */
  predicate Effective(d: Delivery) {
    d.event == Verify || (d.event == Enabled && d.request.Addresses?)
  }

  function EffectiveOnes(ds: seq<Delivery>): seq<Delivery> {
    if ds == [] then [] else (if Effective(ds[0]) then [ds[0]] else []) + EffectiveOnes(ds[1..])
  }

  lemma {:induction false} IneffectiveStutters(canon: Notation, s: Store, d: Delivery)
    requires !Effective(d)
    ensures Deliver(canon, s, d) == s
  {
    if s.Store? {
      assert ApplyAll(s.db, []) == s.db;
    }
  }

  /** What a callback answers sysrepo, and the commands it issues; None for an exception or a crash. */
  function Answer(canon: Notation, s: Store, d: Delivery): Option<(Code, seq<Op>)>
    requires s.Store?
  {
    match d.request
    case Addresses(changes) =>
      var out := Callback(canon, s.db, d.event, changes);
      Some((out.rc, out.ops))
    case Mappings(leaves, garbage, accepted) =>
      var e := NatMapping.NatCallback(NatMapping.MakePrefix(canon), garbage, s.table, d.event, leaves, accepted);
      if e.ret.Returned? then Some((e.ret.rc, e.ops)) else None
    case IetfInterfaces(config, state, accepted) =>
      AnswerOf(InterfaceConfig.Ietf(s.db, state, d.event, config, accepted))
    case OcInterfaces(config, state, accepted) =>
      AnswerOf(InterfaceConfig.OpenConfig(s.db, state, d.event, config, accepted))
  }

  function AnswerOf(out: InterfaceConfig.IfOutcome): Option<(Code, seq<Op>)> {
    if out.IfOutcome? then Some((out.rc, out.ops)) else None
  }

  /** The deliveries that are passed over are answered with success, without a command, whatever they hold. */
  lemma {:induction false} IneffectiveSucceeds(canon: Notation, s: Store, d: Delivery)
    requires s.Store? && !Effective(d)
    ensures Answer(canon, s, d) == Some((Ok, []))
  {
  }

  /** ENABLED configures addresses just as VERIFY does, and nothing else. */
  lemma {:induction false} EnabledConfiguresAddresses(canon: Notation, s: Store, r: Request)
    requires s.Store?
    ensures if r.Addresses? then
              && Deliver(canon, s, Delivery(Enabled, r)) == Deliver(canon, s, Delivery(Verify, r))
              && Answer(canon, s, Delivery(Enabled, r)) == Answer(canon, s, Delivery(Verify, r))
            else Deliver(canon, s, Delivery(Enabled, r)) == s
  {
    if !r.Addresses? {
      IneffectiveStutters(canon, s, Delivery(Enabled, r));
    }
  }

  /** For every run of deliveries the outcome depends on the effective ones only. */
  lemma {:induction false} OnlyEffectiveDeliveriesMatter(canon: Notation, s: Store, ds: seq<Delivery>)
    ensures DeliverAll(canon, s, ds) == DeliverAll(canon, s, EffectiveOnes(ds))
    decreases |ds|
  {
    if ds != [] {
      OnlyEffectiveDeliveriesMatter(canon, Deliver(canon, s, ds[0]), ds[1..]);
      if Effective(ds[0]) {
        assert EffectiveOnes(ds)[0] == ds[0] && EffectiveOnes(ds)[1..] == EffectiveOnes(ds[1..]);
      } else {
        IneffectiveStutters(canon, s, ds[0]);
        assert EffectiveOnes(ds) == EffectiveOnes(ds[1..]);
      }
    }
  }

  /** Two deliveries of one request: the second, APPLY or ABORT, adds nothing and takes nothing back. */
  lemma {:induction false} VerifyTakesEffectOnce(canon: Notation, s: Store, r: Request, second: Event)
    requires second == Event.Apply || second == Abort
    ensures DeliverAll(canon, s, [Delivery(Verify, r), Delivery(second, r)]) == Deliver(canon, s, Delivery(Verify, r))
  {
    var ds := [Delivery(Verify, r), Delivery(second, r)];
    var mid := Deliver(canon, s, ds[0]);
    assert ds[1..] == [ds[1]] && [ds[1]][1..] == [];
    IneffectiveStutters(canon, mid, ds[1]);
    assert DeliverAll(canon, mid, [ds[1]]) == DeliverAll(canon, Deliver(canon, mid, ds[1]), []);
  }

  /**
   * Verifying the request changes nothing, as tests on the request, the database and the NAT table: every binding
   * the address changes touch ends as it was, the mapping to write is there or the one to drop is not, nothing
   * throws, and no interface is moved, written differently or removed.
   */
  ghost predicate IdleRequest(canon: Notation, s: Store, r: Request)
    requires s.Store?
  {
    match r
    case Addresses(changes) => AddressOrder.AllIdle(canon, s.db, AddressOrder.Heard(changes))
    case Mappings(leaves, _, accepted) =>
      NatMapping.NatIdle(NatMapping.MakePrefix(canon), s.table, s.db, leaves, accepted)
    case IetfInterfaces(config, state, accepted) => InterfaceConfig.IetfIdle(s.db, state, config, accepted)
    case OcInterfaces(config, state, accepted) => InterfaceConfig.OcIdle(s.db, state, config, accepted)
  }

  lemma {:induction false} VerifyIdleIff(canon: Notation, s: Store, r: Request)
    requires canon("").None? && s.Store?
    ensures Deliver(canon, s, Delivery(Verify, r)) == s <==> IdleRequest(canon, s, r)
  {
    match r
    case Addresses(changes) => AddressOrder.NothingChangesIff(canon, s.db, changes);
    case Mappings(leaves, garbage, accepted) =>
      NatMapping.NatIdleIff(NatMapping.MakePrefix(canon), garbage, s.table, s.db, leaves, accepted);
    case IetfInterfaces(config, state, accepted) => InterfaceConfig.IetfIdleIff(s.db, state, config, accepted);
    case OcInterfaces(config, state, accepted) => InterfaceConfig.OcIdleIff(s.db, state, config, accepted);
  }

  /** Aborting a verified request gives back the state before it if and only if the request is idle. */
  lemma {:induction false} AbortRestoresIffIdle(canon: Notation, s: Store, r: Request)
    requires canon("").None? && s.Store?
    ensures DeliverAll(canon, s, [Delivery(Verify, r), Delivery(Abort, r)]) == s <==> IdleRequest(canon, s, r)
  {
    VerifyTakesEffectOnce(canon, s, r, Abort);
    VerifyIdleIff(canon, s, r);
  }

  /** A static NAT entry created and aborted is still there. */
  lemma {:induction false} AbortedMappingStays(canon: Notation, s: Store, e: NatEntries.Entry, garbage: nat)
    requires s.Store? && e.Make? && e.kind == Some("static") && e.index !in s.table
    requires NatEntries.GoodEntry(NatMapping.MakePrefix(canon), e)
    ensures var r := Mappings(NatEntries.ExpandEntry(e), garbage, true);
            var after := DeliverAll(canon, s, [Delivery(Verify, r), Delivery(Abort, r)]);
            after.Store? && e.index in after.table
  {
    VerifyTakesEffectOnce(canon, s, Mappings(NatEntries.ExpandEntry(e), garbage, true), Abort);
    NatEntries.SingleEntryExact(NatMapping.MakePrefix(canon), garbage, s.table, e, true);
  }
}
