/**
 * The NAT static-mapping callback of src/plugins/ietf/ietf_nat.cpp: a builder that collects leaves, one
 * index variable for the whole batch, and a table that has to agree with the object database.
 */
module NatMapping {
  import opened Wrappers
  import opened Prefix
  import opened ObjectModel
  import opened AddressChange
  import Decimal

  type Uint32 = n: nat | n < 0x1_0000_0000

  datatype Leaf =
    | Index(index: Uint32)
    | Type(text: string)
    | InternalSrc(text: string)
    | ExternalSrc(text: string)
    | InternalDest(text: string)
    | ExternalDest(text: string)
    | AnotherLeaf

  /** A change with its new value when created and its old value when deleted. */
  datatype LeafChange = LeafChange(oper: Oper, leaf: Leaf)

  /** prefix::make_prefix, whose exceptions are the results other than Good. */
  type Parser = string -> Parsed

  function MakePrefix(canon: Notation): Parser {
    (s: string) => Parse(canon, s)
  }

  /** A leaf with a printed prefix is read as that prefix. */
  lemma {:induction false} MakePrefixReads(canon: Notation, p: Prefix)
    requires Lawful(canon) && WellFormed(canon, p)
    ensures MakePrefix(canon)(Print(p)) == Good(p)
  {
    ParseOfPrint(canon, p);
  }

  /**
   * What make_prefix reads and when it throws: no slash, an address that is none, or no number after the last
   * slash. Otherwise it is the canonical address and the number as an unsigned short.
   */
  lemma {:induction false} MakePrefixThrowsIff(canon: Notation, a: string, t: string)
    requires '/' !in t
    ensures Reads(canon, a, t, MakePrefix(canon)(a + "/" + t))
    ensures MakePrefix(canon)(a + "/" + t).Good? <==> canon(a).Some? && Stoi(t).Some?
    ensures MakePrefix(canon)(t) == MissingSlash
  {
    ParseExact(canon, a, t);
  }

  type Table = map<nat, (string, string)>

  /** A default-constructed boost address, an unspecified IPv4 one. */
  const UNSPECIFIED := "0.0.0.0"

  // ---------- The builder ----------

  datatype Builder = Builder(type_: string, internalSrc: Prefix, externalSrc: Prefix,
                             internalDest: Prefix, externalDest: Prefix, inside: string, outside: string)

  /** Default-constructed prefixes leave their length uninitialised: it may be anything. */
  function Blank(garbage: nat): Builder {
    var p := Prefix(UNSPECIFIED, garbage);
    Builder("", p, p, p, p, UNSPECIFIED, UNSPECIFIED)
  }

  /** A setter; None when make_prefix throws. */
  function Put(parse: Parser, b: Builder, leaf: Leaf): Option<Builder> {
    match leaf
    case Index(_) => Some(b)
    case AnotherLeaf => Some(b)
    case Type(t) => Some(b.(type_ := t))
    case InternalSrc(t) => (match parse(t) case Good(p) => Some(b.(internalSrc := p)) case _ => None)
    case ExternalSrc(t) => (match parse(t) case Good(p) => Some(b.(externalSrc := p)) case _ => None)
    case InternalDest(t) => (match parse(t) case Good(p) => Some(b.(internalDest := p)) case _ => None)
    case ExternalDest(t) => (match parse(t) case Good(p) => Some(b.(externalDest := p)) case _ => None)
  }

  /** prefix::empty asks whether the printed text is empty. */
  predicate Empty(p: Prefix) { Print(p) == "" }

  /** build: the addresses it settles on, and whether it yields an object. */
  function Build(b: Builder): (Builder, bool) {
    if b.type_ != "static" then (b, false)
    else if !Empty(b.internalSrc) && !Empty(b.externalSrc)
    then (b.(inside := b.internalSrc.address, outside := b.externalSrc.address), true)
    else if !Empty(b.internalDest) && !Empty(b.externalDest)
    then (b.(inside := b.internalDest.address, outside := b.externalDest.address), true)
    else (b, false)
  }

  class StaticBuilder {
    var type_: string
    var internalSrc: Prefix
    var externalSrc: Prefix
    var internalDest: Prefix
    var externalDest: Prefix
    var inside: string
    var outside: string

    function View(): Builder
      reads this
    {
      Builder(type_, internalSrc, externalSrc, internalDest, externalDest, inside, outside)
    }

    constructor (garbage: nat)
      ensures View() == Blank(garbage)
    {
      type_ := "";
      internalSrc, externalSrc := Prefix(UNSPECIFIED, garbage), Prefix(UNSPECIFIED, garbage);
      internalDest, externalDest := Prefix(UNSPECIFIED, garbage), Prefix(UNSPECIFIED, garbage);
      inside, outside := UNSPECIFIED, UNSPECIFIED;
    }

    /** The setter a leaf's name selects; `ok` is false when it throws, and then nothing is set. */
    method Set(parse: Parser, leaf: Leaf) returns (ok: bool)
      modifies this
      ensures ok <==> Put(parse, old(View()), leaf).Some?
      ensures View() == if ok then Put(parse, old(View()), leaf).value else old(View())
    {
      ok := true;
      if leaf.Type? {
        type_ := leaf.text;
      } else if !leaf.Index? && !leaf.AnotherLeaf? {
        var p := parse(leaf.text);
        ok := p.Good?;
        if ok {
          match leaf {
            case InternalSrc(_) => internalSrc := p.prefix;
            case ExternalSrc(_) => externalSrc := p.prefix;
            case InternalDest(_) => internalDest := p.prefix;
            case ExternalDest(_) => externalDest := p.prefix;
          }
        }
      }
    }

    method BuildObject() returns (obj: Option<Object>)
      modifies this
      ensures View() == Build(old(View())).0
      ensures obj == if Build(old(View())).1 then Some(NatStatic(inside, outside)) else None
    {
      if type_ != "static" {
        return None;
      }
      var src := !Empty(internalSrc) && !Empty(externalSrc);
      var dest := !Empty(internalDest) && !Empty(externalDest);
      if !src && !dest {
        return None;
      }
      inside := if src then internalSrc.address else internalDest.address;
      outside := if src then externalSrc.address else externalDest.address;
      obj := Some(NatStatic(inside, outside));
    }
  }

  // ---------- The callback ----------

  /** Where the loop stands: the flags, the index and the builder, or the way it was left. */
  datatype Scan =
    | Scanning(create: bool, remove: bool, index: nat, builder: Builder)
    | Stopped
    | Threw

  function ScanStep(parse: Parser, s: Scan, c: LeafChange): Scan {
    if !s.Scanning? then s
    else match c.oper
      case Created =>
        if c.leaf.Index? then s.(create := true, index := c.leaf.index)
        else (match Put(parse, s.builder, c.leaf) case Some(b) => s.(builder := b) case None => Threw)
      case Deleted => if c.leaf.Index? then s.(remove := true, index := c.leaf.index) else s
      case Modified => Stopped
      case Moved => Stopped
  }

  function ScanAll(parse: Parser, garbage: nat, changes: seq<LeafChange>): Scan {
    if changes == [] then Scanning(false, false, 0, Blank(garbage))
    else ScanStep(parse, ScanAll(parse, garbage, changes[..|changes| - 1]), changes[|changes| - 1])
  }

  datatype Return = Returned(rc: Code) | Exception

  datatype Effect = Effect(ops: seq<Op>, table: Table, ret: Return)

  /** What follows the loop. */
  function Finish(table: Table, s: Scan, accepted: bool): Effect {
    match s
    case Threw => Effect([], table, Exception)
    case Stopped => Effect([], table, Returned(Unsupported))
    case Scanning(create, remove, index, builder) =>
      if create then
        var (b, built) := Build(builder);
        if !built then Effect([], table, Returned(InvalArg))
        else if !accepted then Effect([], table, Returned(OperationFailed))
        else Effect([Write(MappingKey(index), NatStatic(b.inside, b.outside))],
                    table[index := (b.inside, b.outside)], Returned(Ok))
      else if remove then Effect([Remove(MappingKey(index))], table - {index}, Returned(Ok))
      else Effect([], table, Returned(Ok))
  }

  function NatCallback(parse: Parser, garbage: nat, table: Table, event: Event, changes: seq<LeafChange>,
                       accepted: bool)
    : Effect
  {
    if event != Verify then Effect([], table, Returned(Ok))
    else Finish(table, ScanAll(parse, garbage, changes), accepted)
  }

  class MappingTable {
    var table: Table

    constructor ()
      ensures table == map[]
    {
      table := map[];
    }

    /** nat_mapping_table_config_cb */
    method ConfigCallback(parse: Parser, garbage: nat, om: Om, event: Event, changes: seq<LeafChange>, accepted: bool)
      returns (ret: Return)
      modifies this, om
      ensures var e := NatCallback(parse, garbage, old(table), event, changes, accepted);
              && ret == e.ret && table == e.table
              && om.db == ApplyAll(old(om.db), e.ops) && om.sent == old(om.sent) + e.ops
    {
      if event != Verify {
        return Returned(Ok);
      }
      var create, remove, index := false, false, 0;
      var builder := new StaticBuilder(garbage);
      var i := 0;
      while i < |changes|
        invariant 0 <= i <= |changes| && fresh(builder)
        invariant ScanAll(parse, garbage, changes[..i]) == Scanning(create, remove, index, builder.View())
        invariant table == old(table) && om.db == old(om.db) && om.sent == old(om.sent)
      {
        var c := changes[i];
        ghost var scan := ScanAll(parse, garbage, changes[..i]);
        assert changes[..i + 1][..i] == changes[..i];
        match c.oper {
          case Created =>
            if c.leaf.Index? {
              create, index := true, c.leaf.index;
            } else {
              var ok := builder.Set(parse, c.leaf);
              if !ok {
                StaysStopped(parse, garbage, changes, i + 1);
                return Exception;
              }
            }
          case Deleted =>
            if c.leaf.Index? {
              remove, index := true, c.leaf.index;
            }
          case _ =>
            StaysStopped(parse, garbage, changes, i + 1);
            return Returned(Unsupported);
        }
        i := i + 1;
      }
      assert changes[..i] == changes;
      if create {
        var obj := builder.BuildObject();
        if obj.None? {
          return Returned(InvalArg);
        }
        var ok := om.Write(MappingKey(index), obj.value, accepted);
        if !ok {
          return Returned(OperationFailed);
        }
        table := table[index := (builder.inside, builder.outside)];
      } else if remove {
        om.Remove(MappingKey(index));
        table := table - {index};
      }
      ret := Returned(Ok);
    }
  }

  /** Once the loop has been left, the remaining changes make no difference. */
  lemma {:induction false} StaysStopped(parse: Parser, garbage: nat, changes: seq<LeafChange>, i: nat)
    requires i <= |changes| && !ScanAll(parse, garbage, changes[..i]).Scanning?
    ensures ScanAll(parse, garbage, changes) == ScanAll(parse, garbage, changes[..i])
    decreases |changes| - i
  {
    if i == |changes| {
      assert changes[..i] == changes;
    } else {
      assert changes[..i + 1][..i] == changes[..i];
      StaysStopped(parse, garbage, changes, i + 1);
    }
  }

  // ---------- Agreement of the two tables ----------

  /** Index i is in the table exactly when the database has its key, with the same pair. */
  ghost predicate Agree(table: Table, db: Database) {
    forall i :: AgreeAt(table, db, i)
  }

  ghost predicate AgreeAt(table: Table, db: Database, i: nat) {
    && (i in table <==> MappingKey(i) in db)
    && (i in table ==> db[MappingKey(i)] == NatStatic(table[i].0, table[i].1))
  }

  /** Every call keeps the two tables in agreement, whatever the batch holds and whatever write fails. */
  lemma {:induction false} CallbackKeepsAgreement(parse: Parser, garbage: nat, table: Table, db: Database,
                                                  event: Event, changes: seq<LeafChange>, accepted: bool)
    requires Agree(table, db)
    ensures var e := NatCallback(parse, garbage, table, event, changes, accepted);
            Agree(e.table, ApplyAll(db, e.ops))
  {
    var e := NatCallback(parse, garbage, table, event, changes, accepted);
    if e.ops != [] {
      assert e.ops[1..] == [];
    }
    forall i: nat
      ensures AgreeAt(e.table, ApplyAll(db, e.ops), i)
    {
      assert AgreeAt(table, db, i);
    }
  }

  /** Any return other than OK, and an exception, leaves both tables as they were. */
  lemma {:induction false} FailureChangesNothing(parse: Parser, garbage: nat, table: Table,
                                                 event: Event, changes: seq<LeafChange>, accepted: bool)
    ensures var e := NatCallback(parse, garbage, table, event, changes, accepted);
            e.ret != Returned(Ok) ==> e.ops == [] && e.table == table
  {
  }

  /** The same agreement with the database keyed by text, for the indices a 32-bit leaf can hold. */
  ghost predicate TextAgree(table: Table, text: TextDatabase) {
    forall i: Uint32 :: TextAgreeAt(table, text, i)
  }

  ghost predicate TextAgreeAt(table: Table, text: TextDatabase, i: nat) {
    var t := KeyText(MappingKey(i));
    && (i in table <==> t in text)
    && (i in table ==> text[t] == NatStatic(table[i].0, table[i].1))
  }

  /** Writing an interface keeps that agreement exactly when its name is not the numeral of an index. */
  lemma InterfaceWriteSafeIffNotIndex(table: Table, text: TextDatabase, name: string, up: bool)
    requires TextAgree(table, text)
    ensures TextAgree(table, TextApply(text, Write(InterfaceKey(name), Interface(name, up))))
            <==> !(Decimal.IsNumeral(name) && Decimal.Value(name) < 0x1_0000_0000)
  {
    var after := TextApply(text, Write(InterfaceKey(name), Interface(name, up)));
    assert after == text[name := Interface(name, up)];
    if Decimal.IsNumeral(name) && Decimal.Value(name) < 0x1_0000_0000 {
      var i := Decimal.Value(name);
      Decimal.PrintOfValue(name);
      assert KeyText(MappingKey(i)) == name;
      assert !TextAgreeAt(table, after, i);
    } else {
      forall i: Uint32 ensures TextAgreeAt(table, after, i) {
        assert TextAgreeAt(table, text, i);
        NumeralOf(i, name);
      }
    }
  }

  lemma NumeralOf(i: Uint32, name: string)
    requires !(Decimal.IsNumeral(name) && Decimal.Value(name) < 0x1_0000_0000)
    ensures KeyText(MappingKey(i)) != name
  {
    Decimal.ValueOfPrint(i);
    MappingText(i);
  }

  // ---------- The builder is last-wins ----------

  datatype Slot =
    | IndexSlot | TypeSlot | InternalSrcSlot | ExternalSrcSlot | InternalDestSlot | ExternalDestSlot | NoSlot

  function SlotOf(leaf: Leaf): Slot {
    match leaf
    case Index(_) => IndexSlot
    case Type(_) => TypeSlot
    case InternalSrc(_) => InternalSrcSlot
    case ExternalSrc(_) => ExternalSrcSlot
    case InternalDest(_) => InternalDestSlot
    case ExternalDest(_) => ExternalDestSlot
    case AnotherLeaf => NoSlot
  }

  /** The last change of the batch to a leaf of that name; for the index deletions count, for others they do not. */
  function Last(changes: seq<LeafChange>, slot: Slot): (r: Option<LeafChange>)
    ensures r.Some? ==> SlotOf(r.value.leaf) == slot
  {
    if changes == [] then None
    else
      var c := changes[|changes| - 1];
      if SlotOf(c.leaf) == slot && (c.oper == Created || slot == IndexSlot) then Some(c)
      else Last(changes[..|changes| - 1], slot)
  }

  predicate IsPrefixLeaf(leaf: Leaf) {
    leaf.InternalSrc? || leaf.ExternalSrc? || leaf.InternalDest? || leaf.ExternalDest?
  }

  /** Supported operations only, and created prefixes that parse. */
  predicate ValidChange(parse: Parser, c: LeafChange) {
    && (c.oper == Created || c.oper == Deleted)
    && (c.oper == Created && IsPrefixLeaf(c.leaf) ==> parse(c.leaf.text).Good?)
  }

  ghost predicate Valid(parse: Parser, changes: seq<LeafChange>) {
    forall c :: c in changes ==> ValidChange(parse, c)
  }

  ghost predicate Has(changes: seq<LeafChange>, oper: Oper) {
    exists c :: c in changes && c.oper == oper && c.leaf.Index?
  }

  function PrefixOf(parse: Parser, c: Option<LeafChange>, default: Prefix): Prefix {
    if c.Some? && IsPrefixLeaf(c.value.leaf) && parse(c.value.leaf.text).Good?
    then parse(c.value.leaf.text).prefix else default
  }

  function BuilderOf(parse: Parser, garbage: nat, changes: seq<LeafChange>): Builder {
    var b := Blank(garbage);
    var t := Last(changes, TypeSlot);
    b.(type_ := if t.Some? && t.value.leaf.Type? then t.value.leaf.text else "",
       internalSrc := PrefixOf(parse, Last(changes, InternalSrcSlot), b.internalSrc),
       externalSrc := PrefixOf(parse, Last(changes, ExternalSrcSlot), b.externalSrc),
       internalDest := PrefixOf(parse, Last(changes, InternalDestSlot), b.internalDest),
       externalDest := PrefixOf(parse, Last(changes, ExternalDestSlot), b.externalDest))
  }

  function IndexOf(changes: seq<LeafChange>): nat {
    var c := Last(changes, IndexSlot);
    if c.Some? && c.value.leaf.Index? then c.value.leaf.index else 0
  }

  lemma LastSnoc(init: seq<LeafChange>, c: LeafChange, slot: Slot)
    ensures Last(init + [c], slot)
         == if SlotOf(c.leaf) == slot && (c.oper == Created || slot == IndexSlot) then Some(c) else Last(init, slot)
  {
    assert (init + [c])[..|init|] == init;
  }

  lemma {:induction false} BuilderSnoc(parse: Parser, garbage: nat, init: seq<LeafChange>, c: LeafChange)
    requires ValidChange(parse, c)
    ensures c.oper == Created ==>
              Put(parse, BuilderOf(parse, garbage, init), c.leaf) == Some(BuilderOf(parse, garbage, init + [c]))
    ensures c.oper == Deleted ==> BuilderOf(parse, garbage, init + [c]) == BuilderOf(parse, garbage, init)
  {
    LastSnoc(init, c, TypeSlot);
    LastSnoc(init, c, InternalSrcSlot);
    LastSnoc(init, c, ExternalSrcSlot);
    LastSnoc(init, c, InternalDestSlot);
    LastSnoc(init, c, ExternalDestSlot);
  }

  lemma IndexSnoc(init: seq<LeafChange>, c: LeafChange)
    ensures IndexOf(init + [c]) == if c.leaf.Index? then c.leaf.index else IndexOf(init)
    ensures forall o :: Has(init + [c], o) <==> Has(init, o) || (c.oper == o && c.leaf.Index?)
  {
    LastSnoc(init, c, IndexSlot);
    forall o ensures Has(init + [c], o) <==> Has(init, o) || (c.oper == o && c.leaf.Index?) {
      assert c in init + [c];
      if Has(init, o) {
        var d :| d in init && d.oper == o && d.leaf.Index?;
        assert d in init + [c];
      }
    }
  }

  /** The loop's state in terms of the last change per leaf name and of the kinds of index changes. */
  function Summary(parse: Parser, garbage: nat, changes: seq<LeafChange>, create: bool, remove: bool): Scan {
    Scanning(create, remove, IndexOf(changes), BuilderOf(parse, garbage, changes))
  }

  /** On a valid batch the loop gathers exactly the last value of every leaf. */
  lemma {:induction false} ScanIsLastPerLeaf(parse: Parser, garbage: nat, changes: seq<LeafChange>)
    requires Valid(parse, changes)
    ensures ScanAll(parse, garbage, changes)
         == Summary(parse, garbage, changes, Has(changes, Created), Has(changes, Deleted))
  {
    if changes != [] {
      var init, c := changes[..|changes| - 1], changes[|changes| - 1];
      assert changes == init + [c];
      assert ValidChange(parse, c);
      ScanIsLastPerLeaf(parse, garbage, init);
      BuilderSnoc(parse, garbage, init, c);
      IndexSnoc(init, c);
    }
  }

  /**
   * Builder exactness: from any valid calls `build` yields an object exactly when the last type set is
   * "static", and the pair is then the last source addresses, 0.0.0.0 where none was set. A printed
   * prefix is never empty, so the destination addresses are never used.
   */
  lemma {:induction false} BuilderExact(parse: Parser, garbage: nat, changes: seq<LeafChange>)
    requires Valid(parse, changes)
    ensures ScanAll(parse, garbage, changes).Scanning?
    ensures var (b, built) := Build(ScanAll(parse, garbage, changes).builder);
            var t := Last(changes, TypeSlot);
            && (built <==> t.Some? && t.value.leaf == Type("static"))
            && (built ==>
                && b.inside == PrefixOf(parse, Last(changes, InternalSrcSlot), Prefix(UNSPECIFIED, garbage)).address
                && b.outside == PrefixOf(parse, Last(changes, ExternalSrcSlot), Prefix(UNSPECIFIED, garbage)).address)
  {
    ScanIsLastPerLeaf(parse, garbage, changes);
  }

  // ---------- Order does not matter within an entry ----------

  /** No leaf name carries two different changes. */
  ghost predicate OneValuePerLeaf(changes: seq<LeafChange>) {
    forall c, d :: c in changes && d in changes && SlotOf(c.leaf) == SlotOf(d.leaf) && c.leaf != AnotherLeaf ==> c == d
  }

  lemma {:induction false} LastIsIn(changes: seq<LeafChange>, slot: Slot)
    ensures match Last(changes, slot)
            case Some(c) => c in changes && (c.oper == Created || slot == IndexSlot)
            case None => forall c :: c in changes && SlotOf(c.leaf) == slot ==> c.oper != Created && slot != IndexSlot
  {
    if changes != [] {
      LastIsIn(changes[..|changes| - 1], slot);
      assert changes == changes[..|changes| - 1] + [changes[|changes| - 1]];
    }
  }

  lemma SameLast(a: seq<LeafChange>, b: seq<LeafChange>, slot: Slot)
    requires slot != NoSlot && OneValuePerLeaf(a) && forall c :: c in a <==> c in b
    ensures Last(a, slot) == Last(b, slot)
  {
    LastIsIn(a, slot);
    LastIsIn(b, slot);
  }

  /**
   * Two valid batches with the same changes, one per leaf name, have the same effect: every permutation
   * of an entry's leaves gives the same code, the same commands and the same table.
   */
  lemma {:induction false} OrderIndependent(parse: Parser, garbage: nat, table: Table, event: Event, accepted: bool,
                                            a: seq<LeafChange>, b: seq<LeafChange>)
    requires Valid(parse, a) && OneValuePerLeaf(a) && multiset(a) == multiset(b)
    ensures NatCallback(parse, garbage, table, event, a, accepted)
         == NatCallback(parse, garbage, table, event, b, accepted)
  {
    assert forall c :: c in a <==> c in b by {
      assert forall c :: c in a <==> c in multiset(a);
      assert forall c :: c in b <==> c in multiset(b);
    }
    SameLast(a, b, IndexSlot);
    SameLast(a, b, TypeSlot);
    SameLast(a, b, InternalSrcSlot);
    SameLast(a, b, ExternalSrcSlot);
    SameLast(a, b, InternalDestSlot);
    SameLast(a, b, ExternalDestSlot);
    ScanIsLastPerLeaf(parse, garbage, a);
    ScanIsLastPerLeaf(parse, garbage, b);
  }

  // ---------- When a batch changes nothing ----------

  /** How many changes are valid before the first one that is not. */
  function ValidCount(parse: Parser, changes: seq<LeafChange>): (n: nat)
    ensures n <= |changes| && (n < |changes| ==> !ValidChange(parse, changes[n]))
    ensures forall i :: 0 <= i < n ==> ValidChange(parse, changes[i])
  {
    if changes == [] || !ValidChange(parse, changes[0]) then 0 else 1 + ValidCount(parse, changes[1..])
  }

  /** The loop is left at the first invalid change: by an exception for a bad prefix, else by a return. */
  lemma {:induction false} LeftAtInvalid(parse: Parser, garbage: nat, changes: seq<LeafChange>)
    requires ValidCount(parse, changes) < |changes|
    ensures ScanAll(parse, garbage, changes)
         == if changes[ValidCount(parse, changes)].oper == Created then Threw else Stopped
  {
    var n := ValidCount(parse, changes);
    ScanIsLastPerLeaf(parse, garbage, changes[..n]);
    assert changes[..n + 1][..n] == changes[..n] && changes[..n + 1][n] == changes[n];
    StaysStopped(parse, garbage, changes, n + 1);
  }

  /** The pair of the last source addresses of a batch. */
  function SourceAddresses(parse: Parser, changes: seq<LeafChange>): (string, string) {
    (PrefixOf(parse, Last(changes, InternalSrcSlot), Prefix(UNSPECIFIED, 0)).address,
     PrefixOf(parse, Last(changes, ExternalSrcSlot), Prefix(UNSPECIFIED, 0)).address)
  }

  /** Both tables hold the pair at the index. */
  ghost predicate Maps(table: Table, db: Database, i: nat, pair: (string, string)) {
    && i in table && table[i] == pair
    && MappingKey(i) in db && db[MappingKey(i)] == NatStatic(pair.0, pair.1)
  }

  /** A batch does not throw and leaves both tables as they were; all tests are on the batch and the tables. */
  ghost predicate NatIdle(parse: Parser, table: Table, db: Database, changes: seq<LeafChange>, accepted: bool) {
    var n, i := ValidCount(parse, changes), IndexOf(changes);
    if n < |changes| then changes[n].oper != Created
    else if Has(changes, Created) then
      Last(changes, TypeSlot) == Some(LeafChange(Created, Type("static"))) && accepted ==>
        Maps(table, db, i, SourceAddresses(parse, changes))
    else if Has(changes, Deleted) then i !in table && MappingKey(i) !in db
    else true
  }

  lemma {:induction false} LastTypeCreated(changes: seq<LeafChange>)
    ensures Last(changes, TypeSlot).Some? ==> Last(changes, TypeSlot).value.oper == Created
  {
    LastIsIn(changes, TypeSlot);
  }

  lemma SetIdleIff(table: Table, db: Database, i: nat, pair: (string, string))
    ensures table[i := pair] == table && ApplyAll(db, [Write(MappingKey(i), NatStatic(pair.0, pair.1))]) == db
            <==> Maps(table, db, i, pair)
  {
    var ops := [Write(MappingKey(i), NatStatic(pair.0, pair.1))];
    assert ops[1..] == [] && ApplyAll(db, ops) == db[MappingKey(i) := NatStatic(pair.0, pair.1)];
    assert table[i := pair][i] == pair;
    assert db[MappingKey(i) := NatStatic(pair.0, pair.1)][MappingKey(i)] == NatStatic(pair.0, pair.1);
  }

  lemma DropIdleIff(table: Table, db: Database, i: nat)
    ensures table - {i} == table && ApplyAll(db, [Remove(MappingKey(i))]) == db
            <==> i !in table && MappingKey(i) !in db
  {
    var ops := [Remove(MappingKey(i))];
    assert ops[1..] == [] && ApplyAll(db, ops) == db - {MappingKey(i)};
    assert i !in table - {i} && MappingKey(i) !in db - {MappingKey(i)};
  }

  /** The end of the callback, the builder's result given. */
  lemma FinishIdleIff(table: Table, db: Database, s: Scan, pair: (string, string), accepted: bool)
    requires s.Scanning? && (Build(s.builder).1 ==> (Build(s.builder).0.inside, Build(s.builder).0.outside) == pair)
    ensures var e := Finish(table, s, accepted);
            && e.ret != Exception
            && (e.table == table && ApplyAll(db, e.ops) == db <==>
                if s.create then Build(s.builder).1 && accepted ==> Maps(table, db, s.index, pair)
                else s.remove ==> s.index !in table && MappingKey(s.index) !in db)
  {
    SetIdleIff(table, db, s.index, pair);
    DropIdleIff(table, db, s.index);
    assert ApplyAll(db, []) == db;
  }

  lemma {:induction false} NatIdleIff(parse: Parser, garbage: nat, table: Table, db: Database,
                                      changes: seq<LeafChange>, accepted: bool)
    ensures var e := NatCallback(parse, garbage, table, Verify, changes, accepted);
            e.ret != Exception && e.table == table && ApplyAll(db, e.ops) == db
            <==> NatIdle(parse, table, db, changes, accepted)
  {
    if ValidCount(parse, changes) < |changes| {
      LeftAtInvalid(parse, garbage, changes);
    } else {
      ScanIsLastPerLeaf(parse, garbage, changes);
      BuilderExact(parse, garbage, changes);
      LastTypeCreated(changes);
      FinishIdleIff(table, db, ScanAll(parse, garbage, changes), SourceAddresses(parse, changes), accepted);
    }
  }

  // ---------- Exactly what a call does ----------

  /** The last type of the batch is static. */
  predicate AsksStatic(changes: seq<LeafChange>) {
    Last(changes, TypeSlot).Some? && Last(changes, TypeSlot).value.leaf == Type("static")
  }

  /** The code of any batch: what ended the loop, else what building and writing came to. */
  ghost function CodeOf(parse: Parser, changes: seq<LeafChange>, accepted: bool): Return {
    var n := ValidCount(parse, changes);
    if n < |changes| then
      if changes[n].oper == Modified || changes[n].oper == Moved then Returned(Unsupported) else Exception
    else if Has(changes, Created) && !AsksStatic(changes) then Returned(InvalArg)
    else if Has(changes, Created) && !accepted then Returned(OperationFailed)
    else Returned(Ok)
  }

  /**
   * Any call on any batch, by the batch alone: the code; and the one command and the change of the table, both only
   * with the code Ok: the last source addresses under the last index, or its removal when nothing is created.
   */
  lemma {:induction false} CallExact(parse: Parser, garbage: nat, table: Table, changes: seq<LeafChange>,
                                     accepted: bool)
    ensures var e, i := NatCallback(parse, garbage, table, Verify, changes, accepted), IndexOf(changes);
            var pair := SourceAddresses(parse, changes);
            && e.ret == CodeOf(parse, changes, accepted)
            && if e.ret != Returned(Ok) || !(Has(changes, Created) || Has(changes, Deleted))
               then e.ops == [] && e.table == table
               else if Has(changes, Created)
               then e.ops == [Write(MappingKey(i), NatStatic(pair.0, pair.1))] && e.table == table[i := pair]
               else e.ops == [Remove(MappingKey(i))] && e.table == table - {i}
  {
    if ValidCount(parse, changes) < |changes| {
      LeftAtInvalid(parse, garbage, changes);
    } else {
      ScanIsLastPerLeaf(parse, garbage, changes);
      BuilderExact(parse, garbage, changes);
      FinishExact(table, ScanAll(parse, garbage, changes), SourceAddresses(parse, changes), accepted);
    }
  }

  lemma FinishExact(table: Table, s: Scan, pair: (string, string), accepted: bool)
    requires s.Scanning? && (Build(s.builder).1 ==> (Build(s.builder).0.inside, Build(s.builder).0.outside) == pair)
    ensures Finish(table, s, accepted)
         == if s.create then
              if !Build(s.builder).1 then Effect([], table, Returned(InvalArg))
              else if !accepted then Effect([], table, Returned(OperationFailed))
              else Effect([Write(MappingKey(s.index), NatStatic(pair.0, pair.1))], table[s.index := pair],
                          Returned(Ok))
            else if s.remove then Effect([Remove(MappingKey(s.index))], table - {s.index}, Returned(Ok))
            else Effect([], table, Returned(Ok))
  {
  }
}
