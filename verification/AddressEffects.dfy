/** What the address callback does to the database, entry by entry, and the code it returns. */
module AddressEffects {
  import opened Wrappers
  import opened Prefix
  import opened ObjectModel
  import opened AddressChange
  import opened AddressBatch

  // ---------- A batch read entry by entry ----------

  /** The length of the last entry of a kind before position k; 0 when there is none. */
  function LengthInForce(es: seq<Entry>, k: nat, create: bool): nat
    requires k <= |es|
  {
    if k == 0 then 0
    else if es[k - 1].create == create then LengthOf(es[k - 1].length, LengthInForce(es, k - 1, create))
    else LengthInForce(es, k - 1, create)
  }

  /** The address text of the last entry of a kind before position k; empty when there is none. */
  function LastAddress(es: seq<Entry>, k: nat, create: bool): string
    requires k <= |es|
  {
    if k == 0 then "" else if es[k - 1].create == create then es[k - 1].ip else LastAddress(es, k - 1, create)
  }

  /** The binding length of an entry: its own leaf, or the previous one where a netmask does not parse. */
  function LengthAt(es: seq<Entry>, k: nat): nat
    requires k < |es|
  {
    LengthOf(es[k].length, LengthInForce(es, k, es[k].create))
  }

  /** An entry can be bound: a valid address on an existing interface. */
  predicate Bindable(canon: Notation, db: Database, e: Entry) {
    HasInterface(db, e.itf) && canon(e.ip).Some?
  }

  /** The binding an entry stands for. */
  function OwnKey(canon: Notation, es: seq<Entry>, k: nat): Key
    requires k < |es| && canon(es[k].ip).Some?
  {
    BindingKey(es[k].itf, canon(es[k].ip).value, LengthAt(es, k))
  }

  /** Its address under the length in force before its own arrives. */
  function EarlyKey(canon: Notation, es: seq<Entry>, k: nat): Key
    requires k < |es| && canon(es[k].ip).Some?
  {
    BindingKey(es[k].itf, canon(es[k].ip).value, LengthInForce(es, k, es[k].create))
  }

  /** The last address of the other kind, on this entry's interface. */
  function CarriedKey(canon: Notation, es: seq<Entry>, k: nat): Key
    requires k < |es| && canon(LastAddress(es, k, !es[k].create)).Some?
  {
    var c := !es[k].create;
    BindingKey(es[k].itf, canon(LastAddress(es, k, c)).value, LengthInForce(es, k, c))
  }

  /** An entry gets a key bound: a creation its early and its own key, a deletion the carried key. */
  ghost predicate Binds(canon: Notation, db: Database, es: seq<Entry>, k: int, key: Key) {
    && 0 <= k < |es| && HasInterface(db, es[k].itf)
    && var ok := es[k].accepted;
       if es[k].create then
         && canon(es[k].ip).Some?
         && ((ok.ip && key == EarlyKey(canon, es, k)) || (ok.length && key == OwnKey(canon, es, k)))
       else
         && canon(LastAddress(es, k, true)).Some? && (ok.list || ok.ip || ok.length)
         && key == CarriedKey(canon, es, k)
  }

  /** An entry gets a key removed: a deletion its early and its own key, a creation the carried key. */
  ghost predicate Unbinds(canon: Notation, db: Database, es: seq<Entry>, k: int, key: Key) {
    && 0 <= k < |es| && HasInterface(db, es[k].itf)
    && if es[k].create then canon(LastAddress(es, k, false)).Some? && key == CarriedKey(canon, es, k)
       else canon(es[k].ip).Some? && (key == EarlyKey(canon, es, k) || key == OwnKey(canon, es, k))
  }

  ghost predicate BoundBySome(canon: Notation, db: Database, es: seq<Entry>, key: Key) {
    exists k :: Binds(canon, db, es, k, key)
  }

  ghost predicate UnboundBySome(canon: Notation, db: Database, es: seq<Entry>, key: Key) {
    exists k :: Unbinds(canon, db, es, k, key)
  }

  /** The database holds a binding under its key. */
  ghost predicate Holds(db: Database, key: Key) {
    key.BindingKey? && key in db && db[key] == L3(key.itf, key.address, key.length)
  }

  // ---------- From the carried variables to the entries ----------

  /** The carried variables when the k-th entry arrives. */
  function CursorAt(cur: Cursor, es: seq<Entry>, k: nat): Cursor
    requires k <= |es|
    decreases k
  {
    if k == 0 then cur else CursorAt(Next(cur, es[0]), es[1..], k - 1)
  }

  lemma {:induction false} CursorAtSuccessor(cur: Cursor, es: seq<Entry>, k: nat)
    requires k < |es|
    ensures CursorAt(cur, es, k + 1) == Next(CursorAt(cur, es, k), es[k])
    decreases k
  {
    if k > 0 {
      CursorAtSuccessor(Next(cur, es[0]), es[1..], k - 1);
    }
  }

  /** The carried variables are what the entries before say. */
  lemma {:induction false} CursorIs(es: seq<Entry>, k: nat)
    requires k <= |es|
    ensures var cur := CursorAt(START, es, k);
            && cur.newLen == LengthInForce(es, k, true) && cur.oldLen == LengthInForce(es, k, false)
            && cur.newAddr == LastAddress(es, k, true) && cur.oldAddr == LastAddress(es, k, false)
  {
    if k > 0 {
      CursorIs(es, k - 1);
      CursorAtSuccessor(START, es, k - 1);
    }
  }

  lemma {:induction false} AddsMember(canon: Notation, db: Database, cur: Cursor, es: seq<Entry>, key: Key)
    ensures key in Adds(canon, db, cur, es) <==>
            exists k :: 0 <= k < |es| && key in AddsOf(canon, db, CursorAt(cur, es, k), es[k])
    decreases |es|
  {
    if es != [] {
      var next, tail := Next(cur, es[0]), es[1..];
      AddsMember(canon, db, next, tail, key);
      assert CursorAt(cur, es, 0) == cur;
      forall k | 0 <= k < |tail|
        ensures AddsOf(canon, db, CursorAt(next, tail, k), tail[k])
             == AddsOf(canon, db, CursorAt(cur, es, k + 1), es[k + 1])
      {
      }
    }
  }

  lemma {:induction false} RemsMember(canon: Notation, db: Database, cur: Cursor, es: seq<Entry>, key: Key)
    ensures key in Rems(canon, db, cur, es) <==>
            exists k :: 0 <= k < |es| && key in RemsOf(canon, db, CursorAt(cur, es, k), es[k])
    decreases |es|
  {
    if es != [] {
      var next, tail := Next(cur, es[0]), es[1..];
      RemsMember(canon, db, next, tail, key);
      assert CursorAt(cur, es, 0) == cur;
      forall k | 0 <= k < |tail|
        ensures RemsOf(canon, db, CursorAt(next, tail, k), tail[k])
             == RemsOf(canon, db, CursorAt(cur, es, k + 1), es[k + 1])
      {
      }
    }
  }

  lemma {:induction false} EntryBinds(canon: Notation, db: Database, es: seq<Entry>, k: nat, key: Key)
    requires k < |es| && canon("").None?
    ensures key in AddsOf(canon, db, CursorAt(START, es, k), es[k]) <==> Binds(canon, db, es, k, key)
    ensures key in RemsOf(canon, db, CursorAt(START, es, k), es[k]) <==> Unbinds(canon, db, es, k, key)
  {
    CursorIs(es, k);
  }

  lemma {:induction false} AddsAreBinds(canon: Notation, db: Database, es: seq<Entry>, key: Key)
    requires canon("").None?
    ensures key in Adds(canon, db, START, es) <==> BoundBySome(canon, db, es, key)
    ensures key in Rems(canon, db, START, es) <==> UnboundBySome(canon, db, es, key)
  {
    AddsMember(canon, db, START, es, key);
    RemsMember(canon, db, START, es, key);
    forall k: nat | k < |es|
      ensures key in AddsOf(canon, db, CursorAt(START, es, k), es[k]) <==> Binds(canon, db, es, k, key)
      ensures key in RemsOf(canon, db, CursorAt(START, es, k), es[k]) <==> Unbinds(canon, db, es, k, key)
    {
      EntryBinds(canon, db, es, k, key);
    }
  }

  /**
   * The exact effect of a mixed batch with any writes refused, key by key and in terms of its entries: a key
   * is there afterwards if some entry binds it, or if it was there and no entry removes it.
   */
  lemma {:induction false} MixedBatchByEntries(canon: Notation, db: Database, es: seq<Entry>, key: Key)
    requires canon("").None? && Named(es) && Unclashing(canon, es)
    ensures key in Result(canon, db, es) <==>
            BoundBySome(canon, db, es, key) || (key in db && !UnboundBySome(canon, db, es, key))
    ensures BoundBySome(canon, db, es, key) ==>
              Holds(Result(canon, db, es), key) && !UnboundBySome(canon, db, es, key)
    ensures !BoundBySome(canon, db, es, key) && key in Result(canon, db, es) ==> Result(canon, db, es)[key] == db[key]
  {
    MixedBatchExact(canon, db, es);
    TouchedKeys(canon, db, START, es);
    AddsAreBinds(canon, db, es, key);
  }

  // ---------- Whose key it is ----------

  lemma {:induction false} InAddresses(canon: Notation, es: seq<Entry>, k: nat)
    requires k < |es| && canon(es[k].ip).Some?
    ensures canon(es[k].ip).value in Addresses(canon, es, es[k].create)
  {
    if k > 0 {
      InAddresses(canon, es[1..], k - 1);
    }
  }

  lemma {:induction false} LastAddressFrom(es: seq<Entry>, k: nat, create: bool)
    requires k <= |es| && LastAddress(es, k, create) != ""
    ensures exists j :: 0 <= j < k && es[j].create == create && es[j].ip == LastAddress(es, k, create)
                        && LengthAt(es, j) == LengthInForce(es, k, create)
  {
    if es[k - 1].create == create {
      assert LengthAt(es, k - 1) == LengthInForce(es, k, create);
    } else {
      LastAddressFrom(es, k - 1, create);
    }
  }

  lemma {:induction false} UnbindsDeletedAddress(canon: Notation, db: Database, es: seq<Entry>, i: nat, key: Key)
    requires canon("").None? && Unbinds(canon, db, es, i, key)
    ensures key.BindingKey? && key.address in Addresses(canon, es, false)
  {
    if es[i].create {
      LastAddressFrom(es, i, false);
      var j :| 0 <= j < i && !es[j].create && es[j].ip == LastAddress(es, i, false);
      InAddresses(canon, es, j);
    } else {
      InAddresses(canon, es, i);
    }
  }

  /** No entry removes the own key of a created entry. */
  lemma {:induction false} CreatedNotUnbound(canon: Notation, db: Database, es: seq<Entry>, k: nat)
    requires canon("").None? && Unclashing(canon, es) && k < |es| && es[k].create && canon(es[k].ip).Some?
    ensures !UnboundBySome(canon, db, es, OwnKey(canon, es, k))
  {
    var key := OwnKey(canon, es, k);
    InAddresses(canon, es, k);
    forall i | Unbinds(canon, db, es, i, key) ensures key.address in Addresses(canon, es, false) {
      UnbindsDeletedAddress(canon, db, es, i, key);
    }
  }

  // ---------- What every mixed batch guarantees ----------

  /**
   * Over any number of interfaces, the binding of a created entry is there afterwards exactly when it was
   * there before or some accepted write binds it, in particular the entry's own; that of a deleted entry is gone.
   */
  lemma {:induction false} CreatedPresentDeletedAbsent(canon: Notation, db: Database, es: seq<Entry>, k: nat)
    requires canon("").None? && Named(es) && Unclashing(canon, es)
    requires k < |es| && Bindable(canon, db, es[k])
    ensures es[k].create ==>
              (Holds(Result(canon, db, es), OwnKey(canon, es, k)) <==>
                 Holds(db, OwnKey(canon, es, k)) || BoundBySome(canon, db, es, OwnKey(canon, es, k)))
    ensures es[k].create && es[k].accepted.length ==> Holds(Result(canon, db, es), OwnKey(canon, es, k))
    ensures !es[k].create ==> OwnKey(canon, es, k) !in Result(canon, db, es)
  {
    var key := OwnKey(canon, es, k);
    MixedBatchByEntries(canon, db, es, key);
    if es[k].create {
      CreatedNotUnbound(canon, db, es, k);
      if es[k].accepted.length {
        assert Binds(canon, db, es, k, key);
      }
    } else {
      assert Unbinds(canon, db, es, k, key);
    }
  }

  /** Nothing else moves: only bindings of the batch's addresses on the batch's interfaces can differ. */
  lemma {:induction false} OthersUnchanged(canon: Notation, db: Database, es: seq<Entry>, key: Key)
    requires canon("").None? && Named(es) && Unclashing(canon, es)
    requires key.BindingKey? && key.itf in Interfaces(es) ==>
               key.address !in Addresses(canon, es, true) && key.address !in Addresses(canon, es, false)
    ensures key in Result(canon, db, es) <==> key in db
    ensures key in db ==> Result(canon, db, es)[key] == db[key]
  {
    MixedBatchExact(canon, db, es);
    TouchedKeys(canon, db, START, es);
  }

  /** What an entry binds is bound already and what it removes is not there. */
  ghost predicate EntryIdle(canon: Notation, db: Database, es: seq<Entry>, k: nat)
    requires k < |es|
  {
    var ok, c := es[k].accepted, !es[k].create;
    HasInterface(db, es[k].itf) ==>
      && (canon(es[k].ip).Some? ==>
            if es[k].create then
              (ok.ip ==> Holds(db, EarlyKey(canon, es, k))) && (ok.length ==> Holds(db, OwnKey(canon, es, k)))
            else EarlyKey(canon, es, k) !in db && OwnKey(canon, es, k) !in db)
      && (canon(LastAddress(es, k, c)).Some? ==>
            if es[k].create then CarriedKey(canon, es, k) !in db
            else ok.list || ok.ip || ok.length ==> Holds(db, CarriedKey(canon, es, k)))
  }

  lemma {:induction false} EntryIdleIff(canon: Notation, db: Database, es: seq<Entry>, k: nat)
    requires k < |es|
    ensures EntryIdle(canon, db, es, k) <==>
            forall key :: (Binds(canon, db, es, k, key) ==> Holds(db, key))
                          && (Unbinds(canon, db, es, k, key) ==> key !in db)
  {
    if !EntryIdle(canon, db, es, k) {
      var ok := es[k].accepted;
      if canon(es[k].ip).Some? {
        var early, own := EarlyKey(canon, es, k), OwnKey(canon, es, k);
        assert es[k].create && ok.ip ==> Binds(canon, db, es, k, early);
        assert es[k].create && ok.length ==> Binds(canon, db, es, k, own);
        assert !es[k].create ==> Unbinds(canon, db, es, k, early) && Unbinds(canon, db, es, k, own);
      }
      if canon(LastAddress(es, k, !es[k].create)).Some? {
        var key := CarriedKey(canon, es, k);
        assert es[k].create ==> Unbinds(canon, db, es, k, key);
        assert !es[k].create && (ok.list || ok.ip || ok.length) ==> Binds(canon, db, es, k, key);
      }
    }
  }

  /** A mixed batch leaves the database as it was exactly when every entry is idle. */
  lemma {:induction false} NothingChangesIffEntriesIdle(canon: Notation, db: Database, es: seq<Entry>)
    requires canon("").None? && Named(es) && Unclashing(canon, es)
    ensures Result(canon, db, es) == db <==> forall k :: 0 <= k < |es| ==> EntryIdle(canon, db, es, k)
  {
    if forall k :: 0 <= k < |es| ==> EntryIdle(canon, db, es, k) {
      forall key
        ensures key in Result(canon, db, es) <==> key in db
        ensures key in db ==> Result(canon, db, es)[key] == db[key]
      {
        MixedBatchByEntries(canon, db, es, key);
        if k :| Binds(canon, db, es, k, key) {
          EntryIdleIff(canon, db, es, k);
        }
        if k :| Unbinds(canon, db, es, k, key) {
          EntryIdleIff(canon, db, es, k);
        }
      }
    }
    if Result(canon, db, es) == db {
      forall k | 0 <= k < |es| ensures EntryIdle(canon, db, es, k) {
        forall key
          ensures Binds(canon, db, es, k, key) ==> Holds(db, key)
          ensures Unbinds(canon, db, es, k, key) ==> key !in db
        {
          MixedBatchByEntries(canon, db, es, key);
        }
        EntryIdleIff(canon, db, es, k);
      }
    }
  }

  // ---------- Batches of one kind ----------

  ghost predicate AllOf(es: seq<Entry>, create: bool) {
    forall k :: 0 <= k < |es| ==> es[k].create == create
  }

  lemma {:induction false} NoAddresses(canon: Notation, es: seq<Entry>, create: bool)
    requires AllOf(es, create)
    ensures Addresses(canon, es, !create) == {}
  {
    if es != [] {
      NoAddresses(canon, es[1..], create);
    }
  }

  lemma {:induction false} NoLastAddress(es: seq<Entry>, k: nat, create: bool)
    requires k <= |es| && AllOf(es, !create)
    ensures LastAddress(es, k, create) == ""
  {
    if k > 0 {
      NoLastAddress(es, k - 1, create);
    }
  }

  /**
   * Exact effect of a batch of creations, of any length, over any interfaces and with any writes refused: the
   * keys added are those of each entry under its own length and under the length of the entry before it, at
   * first 0, as far as their writes are accepted, and nothing else changes.
   */
  lemma {:induction false} AllCreateExact(canon: Notation, db: Database, es: seq<Entry>, key: Key)
    requires canon("").None? && Named(es) && AllOf(es, true)
    ensures key in Result(canon, db, es) <==>
            key in db || exists k ::
              && 0 <= k < |es| && Bindable(canon, db, es[k])
              && ((es[k].accepted.ip && key == EarlyKey(canon, es, k))
                  || (es[k].accepted.length && key == OwnKey(canon, es, k)))
    ensures key in db && !BoundBySome(canon, db, es, key) ==> Result(canon, db, es)[key] == db[key]
  {
    NoAddresses(canon, es, true);
    MixedBatchByEntries(canon, db, es, key);
    forall k | Unbinds(canon, db, es, k, key) ensures false {
      NoLastAddress(es, k, false);
    }
    assert BoundBySome(canon, db, es, key) <==> exists k ::
      && 0 <= k < |es| && Bindable(canon, db, es[k])
      && ((es[k].accepted.ip && key == EarlyKey(canon, es, k))
          || (es[k].accepted.length && key == OwnKey(canon, es, k))) by {
      forall k ensures Binds(canon, db, es, k, key) <==>
        && 0 <= k < |es| && Bindable(canon, db, es[k])
        && ((es[k].accepted.ip && key == EarlyKey(canon, es, k))
            || (es[k].accepted.length && key == OwnKey(canon, es, k)))
      {
      }
    }
  }

  /** The same entries, deleted instead of created. */
  function Undo(es: seq<Entry>): (d: seq<Entry>)
    ensures |d| == |es| && forall k :: 0 <= k < |es| ==> d[k] == es[k].(create := false)
  {
    seq(|es|, k requires 0 <= k < |es| => es[k].(create := false))
  }

  lemma {:induction false} UndoLengths(es: seq<Entry>, k: nat)
    requires AllOf(es, true) && k <= |es|
    ensures LengthInForce(Undo(es), k, false) == LengthInForce(es, k, true)
  {
    if k > 0 {
      UndoLengths(es, k - 1);
    }
  }

  /** A deletion pass removes every key that the creation pass can have added, and only such keys. */
  lemma {:induction false} PassesAgree(canon: Notation, db: Database, made: Database, es: seq<Entry>, k: nat, key: Key)
    requires canon("").None? && AllOf(es, true) && k < |es|
    requires HasInterface(made, es[k].itf) <==> HasInterface(db, es[k].itf)
    ensures Binds(canon, db, es, k, key) ==> Unbinds(canon, made, Undo(es), k, key)
    ensures Unbinds(canon, made, Undo(es), k, key) ==>
              Bindable(canon, db, es[k]) && (key == EarlyKey(canon, es, k) || key == OwnKey(canon, es, k))
  {
    UndoLengths(es, k);
  }

  /**
   * Creating any entries, with any writes refused, and then deleting the same entries in the same order, over
   * any interfaces, gives back the starting database, provided that it held none of their keys.
   */
  lemma {:induction false} CreateDeleteRoundTrip(canon: Notation, db: Database, es: seq<Entry>)
    requires canon("").None? && Named(es) && AllOf(es, true)
    requires forall k :: 0 <= k < |es| && Bindable(canon, db, es[k]) ==>
               EarlyKey(canon, es, k) !in db && OwnKey(canon, es, k) !in db
    ensures Result(canon, Result(canon, db, es), Undo(es)) == db
  {
    var made := Result(canon, db, es);
    var back := Result(canon, made, Undo(es));
    NoAddresses(canon, es, true);
    NoAddresses(canon, Undo(es), false);
    InterfacesStay(canon, db, es);
    forall key ensures (key in back <==> key in db) && (key in db ==> back[key] == db[key]) {
      RoundTripAt(canon, db, es, key);
    }
  }

  lemma {:induction false} InterfacesStay(canon: Notation, db: Database, es: seq<Entry>)
    requires canon("").None? && Named(es) && Unclashing(canon, es)
    ensures forall itf :: HasInterface(Result(canon, db, es), itf) <==> HasInterface(db, itf)
  {
    forall itf ensures HasInterface(Result(canon, db, es), itf) <==> HasInterface(db, itf) {
      OthersUnchanged(canon, db, es, InterfaceKey(itf));
    }
  }

  lemma {:induction false} RoundTripAt(canon: Notation, db: Database, es: seq<Entry>, key: Key)
    requires canon("").None? && Named(es) && AllOf(es, true)
    requires forall k :: 0 <= k < |es| && Bindable(canon, db, es[k]) ==>
               EarlyKey(canon, es, k) !in db && OwnKey(canon, es, k) !in db
    ensures var back := Result(canon, Result(canon, db, es), Undo(es));
            (key in back <==> key in db) && (key in db ==> back[key] == db[key])
  {
    var made := Result(canon, db, es);
    NoAddresses(canon, es, true);
    NoAddresses(canon, Undo(es), false);
    InterfacesStay(canon, db, es);
    MixedBatchByEntries(canon, db, es, key);
    MixedBatchByEntries(canon, made, Undo(es), key);
    forall k: nat | k < |es|
      ensures Binds(canon, db, es, k, key) ==> Unbinds(canon, made, Undo(es), k, key)
      ensures Unbinds(canon, made, Undo(es), k, key) ==> key !in db
      ensures !Unbinds(canon, db, es, k, key) && !Binds(canon, made, Undo(es), k, key)
    {
      PassesAgree(canon, db, made, es, k, key);
      NoLastAddress(es, k, false);
      NoLastAddress(Undo(es), k, true);
    }
  }

  // ---------- Batches that stay local ----------

  /** One interface, or only creations, or only deletions. */
  ghost predicate Local(es: seq<Entry>) {
    || (forall j, k :: 0 <= j < |es| && 0 <= k < |es| ==> es[j].itf == es[k].itf)
    || AllOf(es, true) || AllOf(es, false)
  }

  ghost predicate Mentions(canon: Notation, es: seq<Entry>, itf: string, address: string) {
    exists k :: 0 <= k < |es| && es[k].itf == itf && canon(es[k].ip) == Some(address)
  }

  lemma {:induction false} AddressFromEntry(canon: Notation, es: seq<Entry>, create: bool, address: string)
    requires address in Addresses(canon, es, create)
    ensures exists k :: 0 <= k < |es| && es[k].create == create && canon(es[k].ip) == Some(address)
  {
    if !(es[0].create == create && address in Canonical(canon, es[0].ip)) {
      AddressFromEntry(canon, es[1..], create, address);
      var k :| 0 <= k < |es[1..]| && es[1..][k].create == create && canon(es[1..][k].ip) == Some(address);
      assert es[k + 1] == es[1..][k];
    }
  }

  lemma {:induction false} NotAnAddress(canon: Notation, es: seq<Entry>, create: bool, address: string)
    requires forall k :: 0 <= k < |es| && es[k].create == create ==> canon(es[k].ip) != Some(address)
    ensures address !in Addresses(canon, es, create)
  {
    if es != [] {
      NotAnAddress(canon, es[1..], create, address);
    }
  }

  lemma {:induction false} LocalTouch(canon: Notation, db: Database, es: seq<Entry>, k: int, key: Key)
    requires canon("").None? && Local(es)
    requires Binds(canon, db, es, k, key) || Unbinds(canon, db, es, k, key)
    ensures key.BindingKey? && Mentions(canon, es, key.itf, key.address)
  {
    var c := !es[k].create;
    if canon(LastAddress(es, k, c)).Some? && key == CarriedKey(canon, es, k) {
      LastAddressFrom(es, k, c);
      var j :| 0 <= j < k && es[j].create == c && es[j].ip == LastAddress(es, k, c);
      assert es[j].itf == es[k].itf;
    } else {
      assert es[k].itf == key.itf && canon(es[k].ip) == Some(key.address);
    }
  }

  /** A local batch never spills: it touches only bindings of an entry's own address on its own interface. */
  lemma {:induction false} LocalBatchFrame(canon: Notation, db: Database, es: seq<Entry>, key: Key)
    requires canon("").None? && Named(es) && Unclashing(canon, es) && Local(es)
    requires key.BindingKey? ==> !Mentions(canon, es, key.itf, key.address)
    ensures key in Result(canon, db, es) <==> key in db
    ensures key in db ==> Result(canon, db, es)[key] == db[key]
  {
    MixedBatchByEntries(canon, db, es, key);
    if k :| Binds(canon, db, es, k, key) || Unbinds(canon, db, es, k, key) {
      LocalTouch(canon, db, es, k, key);
    }
  }

  // ---------- Batches of any shape ----------

  ghost predicate NoIp(changes: seq<Change>) {
    forall i :: 0 <= i < |changes| ==>
      !(changes[i].old_.Some? && changes[i].old_.value.Ip?) && !(changes[i].new_.Some? && changes[i].new_.value.Ip?)
  }

  /**
   * A batch without any `ip` change does nothing at all, whatever it holds: modifying the length of a
   * configured address is accepted and silently ignored.
   */
  lemma {:induction false} LengthModificationIgnored(canon: Notation, db: Database, cur: Cursor, rc: Code,
                                                     changes: seq<Change>)
    requires NoIp(changes) && cur.oldAddr == "" && cur.newAddr == ""
    requires forall i :: 0 <= i < |changes| ==> changes[i].itf != ""
    ensures Run(canon, db, cur, rc, changes) == Outcome([], rc)
    decreases |changes|
  {
    if changes != [] {
      LengthModificationIgnored(canon, db, Absorb(cur, changes[0]), rc, changes[1..]);
    }
  }

  /** An address command: the key of a clean address, and the object that belongs to the key. */
  ghost predicate BindingOp(op: Op) {
    && op.key.BindingKey? && CleanAddress(op.key.address)
    && (op.Write? ==> op.obj == L3(op.key.itf, op.key.address, op.key.length))
  }

  lemma {:induction false} ActBindings(canon: Notation, db: Database, cur: Cursor, itf: string, accepted: bool,
                                       rc: Code)
    requires Lawful(canon)
    ensures forall op :: op in Act(canon, db, cur, itf, accepted, rc).ops ==> BindingOp(op)
  {
    assert LawfulAt(canon, cur.oldAddr) && LawfulAt(canon, cur.newAddr);
  }

  /** Any batch, well formed or not and with any writes failing, issues address commands only. */
  lemma {:induction false} OnlyBindingCommands(canon: Notation, db: Database, cur: Cursor, rc: Code,
                                               changes: seq<Change>)
    requires Lawful(canon)
    ensures forall op :: op in Run(canon, db, cur, rc, changes).ops ==> BindingOp(op)
    decreases |changes|
  {
    if changes != [] && changes[0].itf != "" {
      var next := Absorb(cur, changes[0]);
      var now := Act(canon, db, next, changes[0].itf, changes[0].accepted, rc);
      ActBindings(canon, db, next, changes[0].itf, changes[0].accepted, rc);
      OnlyBindingCommands(canon, ApplyAll(db, now.ops), next, now.rc, changes[1..]);
    }
  }

  // ---------- The code the callback returns ----------

  /** The code one change ends with, the interfaces being those of db throughout. */
  function ActCode(canon: Notation, db: Database, cur: Cursor, itf: string, accepted: bool, rc: Code): Code {
    AddNew(canon, db, cur, itf, accepted, RemoveOld(canon, db, cur, itf, rc).rc).rc
  }

  function BatchCode(canon: Notation, db: Database, cur: Cursor, rc: Code, changes: seq<Change>): Code
    decreases |changes|
  {
    if changes == [] then rc
    else
      var c, next := changes[0], Absorb(cur, changes[0]);
      BatchCode(canon, db, next, ActCode(canon, db, next, c.itf, c.accepted, rc), changes[1..])
  }

  lemma {:induction false} SameInterfacesSameCode(canon: Notation, db: Database, db': Database, cur: Cursor,
                                                  itf: string,
                                                  accepted: bool, rc: Code)
    requires forall n :: HasInterface(db', n) <==> HasInterface(db, n)
    ensures var now := Act(canon, db', cur, itf, accepted, rc);
            && now.rc == ActCode(canon, db, cur, itf, accepted, rc)
            && forall n :: HasInterface(ApplyAll(db', now.ops), n) <==> HasInterface(db, n)
  {
    var removal := RemoveOld(canon, db', cur, itf, rc);
    var now := Act(canon, db', cur, itf, accepted, rc);
    forall n
      ensures HasInterface(ApplyAll(db', removal.ops), n) <==> HasInterface(db, n)
      ensures HasInterface(ApplyAll(db', now.ops), n) <==> HasInterface(db, n)
    {
      UntouchedKey(db', removal.ops, InterfaceKey(n));
      UntouchedKey(db', now.ops, InterfaceKey(n));
    }
  }

  lemma {:induction false} RunCode(canon: Notation, db: Database, db': Database, cur: Cursor, rc: Code,
                                   changes: seq<Change>)
    requires NamedChanges(changes) && forall n :: HasInterface(db', n) <==> HasInterface(db, n)
    ensures Run(canon, db', cur, rc, changes).rc == BatchCode(canon, db, cur, rc, changes)
    decreases |changes|
  {
    if changes != [] {
      var c, next := changes[0], Absorb(cur, changes[0]);
      var now := Act(canon, db', next, c.itf, c.accepted, rc);
      SameInterfacesSameCode(canon, db, db', next, c.itf, c.accepted, rc);
      RunCode(canon, db, ApplyAll(db', now.ops), next, now.rc, changes[1..]);
    }
  }

  lemma {:induction false} CodeStep(canon: Notation, db: Database, cur: Cursor, rc: Code, c: Change, rest: seq<Change>)
    ensures BatchCode(canon, db, cur, rc, [c] + rest)
         == BatchCode(canon, db, Absorb(cur, c), ActCode(canon, db, Absorb(cur, c), c.itf, c.accepted, rc), rest)
  {
    assert ([c] + rest)[1..] == rest;
  }

  ghost predicate Addressed(es: seq<Entry>) {
    forall k :: 0 <= k < |es| ==> es[k].ip != ""
  }

  /** The code of the action taken last: the new binding's if there is one, else the old binding's. */
  function LastActionCode(canon: Notation, db: Database, newest: string, oldest: string, itf: string,
                          accepted: bool): Code {
    if !HasInterface(db, itf) then InvalArg
    else if newest != "" then if canon(newest).Some? && accepted then Ok else OperationFailed
    else if canon(oldest).Some? then Ok else OperationFailed
  }

  lemma {:induction false} ActCodeIs(canon: Notation, db: Database, cur: Cursor, itf: string, accepted: bool, rc: Code)
    requires Sticky(cur) && (cur.newAddr != "" || cur.oldAddr != "")
    ensures ActCode(canon, db, cur, itf, accepted, rc)
         == LastActionCode(canon, db, cur.newAddr, cur.oldAddr, itf, accepted)
  {
  }

  lemma {:induction false} EntryCode(canon: Notation, db: Database, cur: Cursor, rc: Code, e: Entry, rest: seq<Change>)
    requires e.ip != "" && Sticky(cur)
    ensures var next := Next(cur, e);
            BatchCode(canon, db, cur, rc, Expand(e) + rest)
            == BatchCode(canon, db, next,
                         LastActionCode(canon, db, next.newAddr, next.oldAddr, e.itf, e.accepted.length), rest)
  {
    var c0, c1 := ChangeOf(e, ListNode, e.accepted.list), ChangeOf(e, Ip(e.ip), e.accepted.ip);
    var c2 := ChangeOf(e, LengthNode(e.length), e.accepted.length);
    var rc2 := ThreeCodes(canon, db, cur, rc, c0, c1, c2, rest);
    AbsorbEntry(cur, e);
    ActCodeIs(canon, db, Next(cur, e), e.itf, e.accepted.length, rc2);
  }

  lemma {:induction false} ThreeCodes(canon: Notation, db: Database, cur: Cursor, rc: Code, c0: Change, c1: Change,
                                      c2: Change, rest: seq<Change>) returns (rc2: Code)
    ensures var cur3 := Absorb(Absorb(Absorb(cur, c0), c1), c2);
            BatchCode(canon, db, cur, rc, [c0, c1, c2] + rest)
            == BatchCode(canon, db, cur3, ActCode(canon, db, cur3, c2.itf, c2.accepted, rc2), rest)
  {
    assert [c0, c1, c2] + rest == [c0] + ([c1] + ([c2] + rest));
    var cur1 := Absorb(cur, c0);
    var cur2 := Absorb(cur1, c1);
    var rc1 := ActCode(canon, db, cur1, c0.itf, c0.accepted, rc);
    rc2 := ActCode(canon, db, cur2, c1.itf, c1.accepted, rc1);
    CodeStep(canon, db, cur, rc, c0, [c1] + ([c2] + rest));
    CodeStep(canon, db, cur1, rc1, c1, [c2] + rest);
    CodeStep(canon, db, cur2, rc2, c2, rest);
  }

  lemma {:induction false} LastCode(canon: Notation, db: Database, cur: Cursor, rc: Code, es: seq<Entry>)
    requires es != [] && Addressed(es) && Sticky(cur)
    ensures var end, last := CursorAt(cur, es, |es|), es[|es| - 1];
            BatchCode(canon, db, cur, rc, Batch(es))
            == LastActionCode(canon, db, end.newAddr, end.oldAddr, last.itf, last.accepted.length)
    decreases |es|
  {
    var e, next := es[0], Next(cur, es[0]);
    var rc' := LastActionCode(canon, db, next.newAddr, next.oldAddr, e.itf, e.accepted.length);
    EntryCode(canon, db, cur, rc, e, Batch(es[1..]));
    if |es| == 1 {
      assert es[1..] == [] && CursorAt(cur, es, 1) == CursorAt(next, [], 0);
    } else {
      LastCode(canon, db, next, rc', es[1..]);
    }
  }

  /**
   * The callback returns the code of the last action of the last entry, whatever happened before it: that of
   * binding the newest created address on the last entry's interface, or, where the batch creates none, that of
   * removing the last entry's address.
   */
  lemma {:induction false} LastActionDecidesCode(canon: Notation, db: Database, es: seq<Entry>)
    requires es != [] && Named(es) && Addressed(es)
    ensures var n, last := |es|, es[|es| - 1];
            Callback(canon, db, Verify, Batch(es)).rc
            == LastActionCode(canon, db, LastAddress(es, n, true), LastAddress(es, n, false), last.itf,
                              last.accepted.length)
  {
    BatchNamed(es);
    RunCode(canon, db, db, START, Ok, Batch(es));
    LastCode(canon, db, START, Ok, es);
    CursorIs(es, |es|);
  }
}
