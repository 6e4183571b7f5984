/**
 * Batches of NAT mapping entries (src/plugins/ietf/ietf_nat.cpp): what each entry asks for by the pairs the
 * source declares valid, what the callback makes of a whole batch, and exactly when the two are the same.
 */
module NatEntries {
  import opened Wrappers
  import opened Prefix
  import opened ObjectModel
  import opened AddressChange
  import opened NatMapping

  /** An entry of a batch: created with whichever of its optional leaves are set, or deleted. */
  datatype Entry =
    | Make(index: Uint32, kind: Option<string>, internalSrc: Option<string>, externalSrc: Option<string>,
           internalDest: Option<string>, externalDest: Option<string>)
    | Drop(index: Uint32)

  /** The leaves with a text. */
  type TextSlot = s: Slot | s != IndexSlot && s != NoSlot witness TypeSlot

  function LeafOf(slot: TextSlot, text: string): Leaf {
    match slot
    case TypeSlot => Type(text)
    case InternalSrcSlot => InternalSrc(text)
    case ExternalSrcSlot => ExternalSrc(text)
    case InternalDestSlot => InternalDest(text)
    case ExternalDestSlot => ExternalDest(text)
  }

  function TextOf(e: Entry, slot: TextSlot): Option<string> {
    if e.Drop? then None
    else match slot
      case TypeSlot => e.kind
      case InternalSrcSlot => e.internalSrc
      case ExternalSrcSlot => e.externalSrc
      case InternalDestSlot => e.internalDest
      case ExternalDestSlot => e.externalDest
  }

  // ---------- The changes of a batch ----------

  function LeafChanges(e: Entry, slot: TextSlot): seq<LeafChange> {
    match TextOf(e, slot)
    case Some(text) => [LeafChange(Created, LeafOf(slot, text))]
    case None => []
  }

  function IndexChange(e: Entry): LeafChange {
    LeafChange(if e.Make? then Created else Deleted, Index(e.index))
  }

  function ExpandEntry(e: Entry): seq<LeafChange> {
    [IndexChange(e)] + LeafChanges(e, TypeSlot) + LeafChanges(e, InternalSrcSlot) + LeafChanges(e, ExternalSrcSlot)
    + LeafChanges(e, InternalDestSlot) + LeafChanges(e, ExternalDestSlot)
  }

  function ExpandAll(es: seq<Entry>): seq<LeafChange> {
    if es == [] then [] else ExpandAll(es[..|es| - 1]) + ExpandEntry(es[|es| - 1])
  }

  /** Every prefix of the entry parses. */
  ghost predicate GoodEntry(parse: Parser, e: Entry) {
    forall slot: TextSlot :: slot != TypeSlot && TextOf(e, slot).Some? ==> parse(TextOf(e, slot).value).Good?
  }

  ghost predicate GoodEntries(parse: Parser, es: seq<Entry>) {
    forall e :: e in es ==> GoodEntry(parse, e)
  }

  // ---------- What a batch asks for ----------

  function AddressIn(parse: Parser, text: Option<string>): string {
    if text.Some? && parse(text.value).Good? then parse(text.value).prefix.address else UNSPECIFIED
  }

  /** Texts of IPv6 addresses have a colon, texts of IPv4 addresses have none. */
  predicate SameFamily(a: string, b: string) {
    ':' in a <==> ':' in b
  }

  function ValidPair(a: string, b: string): Option<(string, string)> {
    if SameFamily(a, b) then Some((a, b)) else None
  }

  /**
   * The pair an entry asks for: the source addresses, else the destination addresses, of one family. Any
   * other combination is invalid and asks for nothing, and so does any type but static.
   */
  function AskedPair(parse: Parser, e: Entry): Option<(string, string)> {
    if e.Drop? || e.kind != Some("static") then None
    else if e.internalSrc.Some? && e.externalSrc.Some?
    then ValidPair(AddressIn(parse, e.internalSrc), AddressIn(parse, e.externalSrc))
    else if e.internalDest.Some? && e.externalDest.Some?
    then ValidPair(AddressIn(parse, e.internalDest), AddressIn(parse, e.externalDest))
    else None
  }

  function ApplyEntry(parse: Parser, table: Table, e: Entry): Table {
    if e.Drop? then table - {e.index}
    else match AskedPair(parse, e)
      case Some(pair) => table[e.index := pair]
      case None => table
  }

  function ApplyEntries(parse: Parser, table: Table, es: seq<Entry>): Table {
    if es == [] then table
    else ApplyEntry(parse, ApplyEntries(parse, table, es[..|es| - 1]), es[|es| - 1])
  }

  ghost predicate Distinct(es: seq<Entry>) {
    forall j, k :: 0 <= j < k < |es| ==> es[j].index != es[k].index
  }

  /** What the datastore guarantees: distinct indices, created while absent and deleted while present. */
  ghost predicate Proper(table: Table, es: seq<Entry>) {
    Distinct(es) && forall k :: 0 <= k < |es| ==> (es[k].Make? <==> es[k].index !in table)
  }

  ghost predicate SameAt(t: Table, u: Table, i: nat) {
    (i in t <==> i in u) && (i in t && i in u ==> t[i] == u[i])
  }

  /** What a batch asks of one index: what the entry of that index says, else nothing. */
  lemma {:induction false} AskedAt(parse: Parser, table: Table, es: seq<Entry>, i: nat)
    requires Distinct(es)
    ensures var t := ApplyEntries(parse, table, es);
            && ((forall k :: 0 <= k < |es| ==> es[k].index != i) ==> SameAt(t, table, i))
            && (forall k :: 0 <= k < |es| && es[k].index == i ==> SameAt(t, ApplyEntry(parse, table, es[k]), i))
  {
    if es != [] {
      var init, last := es[..|es| - 1], es[|es| - 1];
      AskedAt(parse, table, init, i);
      assert forall k :: 0 <= k < |init| ==> init[k] == es[k];
    }
  }

  // ---------- What the callback does with a batch ----------

  /** The last text a batch gives to a leaf, whichever entry it belongs to. */
  function LastText(es: seq<Entry>, slot: TextSlot): Option<string> {
    if es == [] then None
    else if TextOf(es[|es| - 1], slot).Some? then TextOf(es[|es| - 1], slot)
    else LastText(es[..|es| - 1], slot)
  }

  /** The pair the shared builder ends up with. */
  function MergedPair(parse: Parser, es: seq<Entry>): (string, string) {
    (AddressIn(parse, LastText(es, InternalSrcSlot)), AddressIn(parse, LastText(es, ExternalSrcSlot)))
  }

  ghost predicate HasMake(es: seq<Entry>) {
    exists k :: 0 <= k < |es| && es[k].Make?
  }

  /** One index, one builder: the table after a batch. */
  ghost function Merged(parse: Parser, table: Table, es: seq<Entry>, accepted: bool): Table {
    if es == [] then table
    else if !HasMake(es) then table - {es[|es| - 1].index}
    else if LastText(es, TypeSlot) == Some("static") && accepted
    then table[es[|es| - 1].index := MergedPair(parse, es)]
    else table
  }

  lemma {:induction false} LastConcat(a: seq<LeafChange>, b: seq<LeafChange>, slot: Slot)
    ensures Last(a + b, slot) == if Last(b, slot).Some? then Last(b, slot) else Last(a, slot)
    decreases |b|
  {
    if b == [] {
      assert a + b == a;
    } else {
      var init, c := b[..|b| - 1], b[|b| - 1];
      assert a + b == (a + init) + [c] && b == init + [c];
      LastConcat(a, init, slot);
      LastSnoc(a + init, c, slot);
      LastSnoc(init, c, slot);
    }
  }

  lemma LastOfOne(c: LeafChange, slot: Slot)
    ensures Last([c], slot)
         == if SlotOf(c.leaf) == slot && (c.oper == Created || slot == IndexSlot) then Some(c) else None
  {
    assert [c] == [] + [c];
    LastSnoc([], c, slot);
  }

  lemma LastOfLeaf(e: Entry, s: TextSlot, slot: Slot)
    ensures Last(LeafChanges(e, s), slot)
         == if s == slot && TextOf(e, s).Some? then Some(LeafChange(Created, LeafOf(s, TextOf(e, s).value))) else None
  {
    if text :| TextOf(e, s) == Some(text) {
      LastOfOne(LeafChange(Created, LeafOf(s, text)), slot);
    }
  }

  /** The last change of an entry to a leaf is the one it has. */
  lemma LastOfEntry(e: Entry, slot: Slot)
    requires slot != NoSlot
    ensures Last(ExpandEntry(e), slot)
         == if slot == IndexSlot then Some(IndexChange(e))
            else if TextOf(e, slot).Some? then Some(LeafChange(Created, LeafOf(slot, TextOf(e, slot).value)))
            else None
  {
    var a0 := [IndexChange(e)];
    var a1 := a0 + LeafChanges(e, TypeSlot);
    var a2 := a1 + LeafChanges(e, InternalSrcSlot);
    var a3 := a2 + LeafChanges(e, ExternalSrcSlot);
    var a4 := a3 + LeafChanges(e, InternalDestSlot);
    LastConcat(a0, LeafChanges(e, TypeSlot), slot);
    LastConcat(a1, LeafChanges(e, InternalSrcSlot), slot);
    LastConcat(a2, LeafChanges(e, ExternalSrcSlot), slot);
    LastConcat(a3, LeafChanges(e, InternalDestSlot), slot);
    LastConcat(a4, LeafChanges(e, ExternalDestSlot), slot);
    LastOfLeaf(e, TypeSlot, slot);
    LastOfLeaf(e, InternalSrcSlot, slot);
    LastOfLeaf(e, ExternalSrcSlot, slot);
    LastOfLeaf(e, InternalDestSlot, slot);
    LastOfLeaf(e, ExternalDestSlot, slot);
    assert a0 == [] + [IndexChange(e)];
    LastSnoc([], IndexChange(e), slot);
  }

  /** The last change of a batch to a leaf, read off the entries. */
  lemma {:induction false} LastOfEntries(es: seq<Entry>, slot: TextSlot)
    ensures Last(ExpandAll(es), slot)
         == match LastText(es, slot) case Some(t) => Some(LeafChange(Created, LeafOf(slot, t))) case None => None
  {
    if es != [] {
      var init, last := es[..|es| - 1], es[|es| - 1];
      LastOfEntries(init, slot);
      LastConcat(ExpandAll(init), ExpandEntry(last), slot);
      LastOfEntry(last, slot);
    }
  }

  lemma LastIndexOfEntries(es: seq<Entry>)
    requires es != []
    ensures IndexOf(ExpandAll(es)) == es[|es| - 1].index
  {
    LastConcat(ExpandAll(es[..|es| - 1]), ExpandEntry(es[|es| - 1]), IndexSlot);
    LastOfEntry(es[|es| - 1], IndexSlot);
  }

  /** The changes of a batch are those of its entries. */
  lemma {:induction false} ChangesFromEntries(es: seq<Entry>, c: LeafChange)
    ensures c in ExpandAll(es) <==> exists e :: e in es && c in ExpandEntry(e)
  {
    if es != [] {
      var init, last := es[..|es| - 1], es[|es| - 1];
      ChangesFromEntries(init, c);
      assert es == init + [last];
    }
  }

  lemma LeafIn(e: Entry, c: LeafChange)
    requires c in ExpandEntry(e) && !c.leaf.Index?
    ensures c.leaf != AnotherLeaf && c.oper == Created
    ensures var s := SlotOf(c.leaf); TextOf(e, s).Some? && c.leaf == LeafOf(s, TextOf(e, s).value)
  {
  }

  lemma IndexIn(e: Entry, c: LeafChange)
    requires c in ExpandEntry(e) && c.leaf.Index?
    ensures c == IndexChange(e)
  {
  }

  lemma {:induction false} EntryValid(parse: Parser, e: Entry, c: LeafChange)
    requires GoodEntry(parse, e) && c in ExpandEntry(e)
    ensures ValidChange(parse, c)
  {
    if c.leaf.Index? {
      IndexIn(e, c);
    } else {
      LeafIn(e, c);
    }
  }

  lemma {:induction false} EntriesValid(parse: Parser, es: seq<Entry>)
    requires GoodEntries(parse, es)
    ensures Valid(parse, ExpandAll(es))
  {
    forall c | c in ExpandAll(es) ensures ValidChange(parse, c) {
      ChangesFromEntries(es, c);
      var e :| e in es && c in ExpandEntry(e);
      EntryValid(parse, e, c);
    }
  }

  lemma {:induction false} HasFromEntries(es: seq<Entry>)
    ensures Has(ExpandAll(es), Created) <==> HasMake(es)
    ensures es != [] && !HasMake(es) ==> Has(ExpandAll(es), Deleted)
  {
    if k :| 0 <= k < |es| && es[k].Make? {
      ChangesFromEntries(es, IndexChange(es[k]));
      assert IndexChange(es[k]) in ExpandEntry(es[k]);
    }
    if c :| c in ExpandAll(es) && c.oper == Created && c.leaf.Index? {
      ChangesFromEntries(es, c);
      var e :| e in es && c in ExpandEntry(e);
      IndexIn(e, c);
      var k :| 0 <= k < |es| && es[k] == e;
    }
    if es != [] && !HasMake(es) {
      assert es[0].Drop?;
      ChangesFromEntries(es, IndexChange(es[0]));
    }
  }

  lemma {:induction false} AddressOfLast(parse: Parser, garbage: nat, es: seq<Entry>, slot: TextSlot)
    requires GoodEntries(parse, es) && slot != TypeSlot
    ensures PrefixOf(parse, Last(ExpandAll(es), slot), Prefix(UNSPECIFIED, garbage)).address
         == AddressIn(parse, LastText(es, slot))
  {
    LastOfEntries(es, slot);
  }

  lemma {:induction false} FlagsOfEntries(parse: Parser, garbage: nat, es: seq<Entry>)
    requires GoodEntries(parse, es)
    ensures var s := ScanAll(parse, garbage, ExpandAll(es));
            && s.Scanning? && (s.create <==> HasMake(es)) && (es == [] ==> !s.remove)
            && (es != [] && !HasMake(es) ==> s.remove)
            && (es != [] ==> s.index == es[|es| - 1].index)
  {
    EntriesValid(parse, es);
    ScanIsLastPerLeaf(parse, garbage, ExpandAll(es));
    HasFromEntries(es);
    if es != [] {
      LastIndexOfEntries(es);
    }
  }

  lemma {:induction false} BuilderOfEntries(parse: Parser, garbage: nat, es: seq<Entry>)
    requires GoodEntries(parse, es) && ScanAll(parse, garbage, ExpandAll(es)).Scanning?
    ensures var (b, built) := Build(ScanAll(parse, garbage, ExpandAll(es)).builder);
            && (built <==> LastText(es, TypeSlot) == Some("static"))
            && (built ==> (b.inside, b.outside) == MergedPair(parse, es))
  {
    EntriesValid(parse, es);
    BuilderExact(parse, garbage, ExpandAll(es));
    LastOfEntries(es, TypeSlot);
    AddressOfLast(parse, garbage, es, InternalSrcSlot);
    AddressOfLast(parse, garbage, es, ExternalSrcSlot);
  }

  /**
   * The exact table after any batch of entries: a batch that creates anything sets at most the index of its last
   * entry, to the last source addresses of the whole batch; a batch of deletions deletes the last of them.
   */
  lemma {:induction false} EntriesExact(parse: Parser, garbage: nat, table: Table, es: seq<Entry>, accepted: bool)
    requires GoodEntries(parse, es)
    ensures var e := NatCallback(parse, garbage, table, Verify, ExpandAll(es), accepted);
            && e.table == Merged(parse, table, es, accepted)
            && (e.ret == Returned(Ok) <==> (HasMake(es) ==> LastText(es, TypeSlot) == Some("static") && accepted))
  {
    FlagsOfEntries(parse, garbage, es);
    BuilderOfEntries(parse, garbage, es);
  }

  // ---------- Exactly when a batch is applied as asked ----------

  /**
   * Nothing, one deletion, or creations that are all invalid but perhaps the last, where the batch as a whole
   * ends up with just the pair the last one asks for.
   */
  ghost predicate Faithful(parse: Parser, es: seq<Entry>, accepted: bool) {
    || es == []
    || (|es| == 1 && es[0].Drop?)
    || (&& (forall k :: 0 <= k < |es| ==> es[k].Make?)
        && (forall k :: 0 <= k < |es| - 1 ==> AskedPair(parse, es[k]).None?)
        && match AskedPair(parse, es[|es| - 1])
           case Some(pair) => accepted && MergedPair(parse, es) == pair
           case None => LastText(es, TypeSlot) != Some("static") || !accepted)
  }

  /** A batch with a creation and a deletion: what is to be deleted stays. */
  lemma {:induction false} MixedLosesDeletion(parse: Parser, table: Table, es: seq<Entry>, accepted: bool, k: nat)
    requires Proper(table, es) && k < |es| && es[k].Drop? && (HasMake(es) || k < |es| - 1)
    ensures Merged(parse, table, es, accepted) != ApplyEntries(parse, table, es)
  {
    AskedAt(parse, table, es, es[k].index);
    assert es[k].index in Merged(parse, table, es, accepted);
  }

  /** A valid creation that is not the last one is lost. */
  lemma {:induction false} EarlierCreationLost(parse: Parser, table: Table, es: seq<Entry>, accepted: bool, k: nat)
    requires Proper(table, es) && k < |es| - 1 && AskedPair(parse, es[k]).Some?
    ensures Merged(parse, table, es, accepted) != ApplyEntries(parse, table, es)
  {
    AskedAt(parse, table, es, es[k].index);
    assert es[k].index !in Merged(parse, table, es, accepted);
  }

  /** Creations of which only the last may be valid ask for what that one asks for. */
  lemma {:induction false} OnlyLastAsks(parse: Parser, table: Table, es: seq<Entry>)
    requires Proper(table, es) && es != [] && (forall k :: 0 <= k < |es| ==> es[k].Make?)
    requires forall k :: 0 <= k < |es| - 1 ==> AskedPair(parse, es[k]).None?
    ensures ApplyEntries(parse, table, es) == ApplyEntry(parse, table, es[|es| - 1])
  {
    var t, u := ApplyEntries(parse, table, es), ApplyEntry(parse, table, es[|es| - 1]);
    forall i: nat ensures SameAt(t, u, i) {
      AskedAt(parse, table, es, i);
    }
    assert forall i :: i in t <==> i in u by {
      forall i: nat ensures i in t <==> i in u {
        assert SameAt(t, u, i);
      }
    }
    assert forall i: nat :: i in t ==> SameAt(t, u, i);
  }

  lemma SetDiffers(table: Table, i: nat, pair: (string, string))
    requires i !in table
    ensures table[i := pair] != table
  {
    assert i in table[i := pair];
  }

  lemma SetInjective(table: Table, i: nat, p: (string, string), q: (string, string))
    ensures table[i := p] == table[i := q] ==> p == q
  {
    assert table[i := p][i] == p && table[i := q][i] == q;
  }

  lemma {:induction false} FaithfulIff(parse: Parser, table: Table, es: seq<Entry>, accepted: bool)
    requires Proper(table, es)
    ensures Merged(parse, table, es, accepted) == ApplyEntries(parse, table, es) <==> Faithful(parse, es, accepted)
  {
    if es == [] {
    } else if |es| == 1 && es[0].Drop? {
      assert es[..0] == [] && !HasMake(es);
    } else if k :| 0 <= k < |es| && es[k].Drop? {
      var d := if HasMake(es) || k < |es| - 1 then k else 0;
      MixedLosesDeletion(parse, table, es, accepted, d);
    } else if k :| 0 <= k < |es| - 1 && AskedPair(parse, es[k]).Some? {
      EarlierCreationLost(parse, table, es, accepted, k);
    } else {
      assert es[0].Make? && HasMake(es);
      OnlyLastAsks(parse, table, es);
      var last := es[|es| - 1];
      assert last.index !in table && AskedPair(parse, last).Some? ==> LastText(es, TypeSlot) == last.kind;
      SetDiffers(table, last.index, MergedPair(parse, es));
      if pair :| AskedPair(parse, last) == Some(pair) {
        SetDiffers(table, last.index, pair);
        SetInjective(table, last.index, pair, MergedPair(parse, es));
      }
    }
  }

  /**
   * The callback does what a batch of entries asks for, whatever their leaves and whether or not VPP accepts the
   * write, if and only if the batch is Faithful.
   */
  lemma {:induction false} AppliedAsAskedIff(parse: Parser, garbage: nat, table: Table, es: seq<Entry>, accepted: bool)
    requires GoodEntries(parse, es) && Proper(table, es)
    ensures NatCallback(parse, garbage, table, Verify, ExpandAll(es), accepted).table == ApplyEntries(parse, table, es)
            <==> Faithful(parse, es, accepted)
  {
    EntriesExact(parse, garbage, table, es, accepted);
    FaithfulIff(parse, table, es, accepted);
  }

  // ---------- One entry ----------

  /** The source addresses of an entry, 0.0.0.0 for a missing one. */
  function SourcePair(parse: Parser, e: Entry): (string, string)
    requires e.Make?
  {
    (AddressIn(parse, e.internalSrc), AddressIn(parse, e.externalSrc))
  }

  lemma SingleTexts(e: Entry, slot: TextSlot)
    ensures LastText([e], slot) == TextOf(e, slot)
  {
    assert [e][..0] == [];
  }

  lemma ExpandSingle(e: Entry)
    ensures ExpandAll([e]) == ExpandEntry(e)
  {
    assert [e][..0] == [];
  }

  /** What one entry leaves in the table: the source addresses, whatever its destination addresses are. */
  lemma {:induction false} SingleEntryExact(parse: Parser, garbage: nat, table: Table, e: Entry, accepted: bool)
    requires GoodEntry(parse, e)
    ensures var after := NatCallback(parse, garbage, table, Verify, ExpandEntry(e), accepted);
            && after.table == (if e.Drop? then table - {e.index}
                               else if e.kind == Some("static") && accepted
                               then table[e.index := SourcePair(parse, e)] else table)
            && (after.ret == Returned(Ok) <==> (e.Make? ==> e.kind == Some("static") && accepted))
  {
    ExpandSingle(e);
    EntriesExact(parse, garbage, table, [e], accepted);
    SingleTexts(e, TypeSlot);
    SingleTexts(e, InternalSrcSlot);
    SingleTexts(e, ExternalSrcSlot);
    assert HasMake([e]) <==> [e][0].Make?;
  }

  /**
   * One entry is applied as asked if and only if it is a deletion, or not static, or the pair it asks for is
   * that of its source addresses, or it is invalid and VPP refuses it.
   */
  lemma {:induction false} SingleEntryAsAskedIff(parse: Parser, garbage: nat, table: Table, e: Entry, accepted: bool)
    requires GoodEntry(parse, e) && (e.Make? <==> e.index !in table)
    ensures NatCallback(parse, garbage, table, Verify, ExpandEntry(e), accepted).table == ApplyEntry(parse, table, e)
            <==>
            || e.Drop? || e.kind != Some("static")
            || (match AskedPair(parse, e)
                case Some(pair) => accepted && SourcePair(parse, e) == pair
                case None => !accepted)
  {
    SingleEntryExact(parse, garbage, table, e, accepted);
    if e.Make? {
      SetDiffers(table, e.index, SourcePair(parse, e));
      if pair :| AskedPair(parse, e) == Some(pair) {
        SetDiffers(table, e.index, pair);
        SetInjective(table, e.index, pair, SourcePair(parse, e));
      }
    }
  }

  /** A valid destination pair is reported as a success and maps 0.0.0.0 to 0.0.0.0. */
  lemma {:induction false} DestinationPairIgnored(parse: Parser, garbage: nat, table: Table, i: Uint32,
                                                  a: string, b: string)
    requires parse(a).Good? && parse(b).Good?
    ensures var e := Make(i, Some("static"), None, None, Some(a), Some(b));
            var after := NatCallback(parse, garbage, table, Verify, ExpandEntry(e), true);
            after.ret == Returned(Ok) && after.table == table[i := ("0.0.0.0", "0.0.0.0")]
  {
    SingleEntryExact(parse, garbage, table, Make(i, Some("static"), None, None, Some(a), Some(b)), true);
  }

  /** An entry with only one source address is invalid, reported as a success and mapped to 0.0.0.0. */
  lemma {:induction false} HalfSourceAccepted(parse: Parser, garbage: nat, table: Table, i: Uint32, a: string)
    requires parse(a).Good? && i !in table
    ensures var e := Make(i, Some("static"), Some(a), None, None, None);
            var after := NatCallback(parse, garbage, table, Verify, ExpandEntry(e), true);
            && after.ret == Returned(Ok) && after.table == table[i := (parse(a).prefix.address, "0.0.0.0")]
            && after.table != ApplyEntry(parse, table, e)
  {
    SingleEntryExact(parse, garbage, table, Make(i, Some("static"), Some(a), None, None, None), true);
  }

  /** From the leaf texts to the tables: printed source prefixes are mapped by their addresses, under the index. */
  lemma {:induction false} TextsMapped(canon: Notation, garbage: nat, table: Table, i: Uint32, p: Prefix, q: Prefix)
    requires Lawful(canon) && WellFormed(canon, p) && WellFormed(canon, q)
    ensures var e := Make(i, Some("static"), Some(Print(p)), Some(Print(q)), None, None);
            NatCallback(MakePrefix(canon), garbage, table, Verify, ExpandEntry(e), true)
            == Effect([Write(MappingKey(i), NatStatic(p.address, q.address))], table[i := (p.address, q.address)],
                      Returned(Ok))
  {
    var parse, e := MakePrefix(canon), Make(i, Some("static"), Some(Print(p)), Some(Print(q)), None, None);
    MakePrefixReads(canon, p);
    MakePrefixReads(canon, q);
    EntryCommands(parse, garbage, table, e);
  }

  lemma {:induction false} EntryCommands(parse: Parser, garbage: nat, table: Table, e: Entry)
    requires GoodEntry(parse, e) && e.Make? && e.kind == Some("static")
    ensures var pair := SourcePair(parse, e);
            NatCallback(parse, garbage, table, Verify, ExpandEntry(e), true)
            == Effect([Write(MappingKey(e.index), NatStatic(pair.0, pair.1))], table[e.index := pair], Returned(Ok))
  {
    ExpandSingle(e);
    assert [e][0] == e;
    FlagsOfEntries(parse, garbage, [e]);
    BuilderOfEntries(parse, garbage, [e]);
    SingleTexts(e, TypeSlot);
    SingleTexts(e, InternalSrcSlot);
    SingleTexts(e, ExternalSrcSlot);
    FinishExact(table, ScanAll(parse, garbage, ExpandEntry(e)), SourcePair(parse, e), true);
  }

  /** The worst case: an entry created before another is deleted takes over the deleted entry's index. */
  lemma {:induction false} CreationLandsOnDeletedIndex(parse: Parser, garbage: nat, table: Table, m: Entry, d: Entry)
    requires m.Make? && d.Drop? && GoodEntry(parse, m) && m.kind == Some("static")
    requires m.index != d.index && m.index !in table
    ensures var after := NatCallback(parse, garbage, table, Verify, ExpandAll([m, d]), true).table;
            m.index !in after && d.index in after && after[d.index] == SourcePair(parse, m)
  {
    var es := [m, d];
    assert es[..1] == [m] && es[0].Make?;
    EntriesExact(parse, garbage, table, es, true);
    SingleTexts(m, TypeSlot);
    SingleTexts(m, InternalSrcSlot);
    SingleTexts(m, ExternalSrcSlot);
  }
}
