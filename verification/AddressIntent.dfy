/** What a batch of address entries asks for, and exactly when the address callback does it. */
module AddressIntent {
  import opened Wrappers
  import opened Prefix
  import opened ObjectModel
  import opened AddressChange
  import opened AddressBatch
  import opened AddressEffects
  import opened AddressOrder
  import Netmask

  // ---------- What an entry asks for ----------

  /** The prefix length a leaf asks for: the number, or that of the netmask; None for a mask with holes or no mask. */
  function AskedLength(l: Length): Option<nat> {
    match l
    case Plen(n) => Some(n)
    case MaskText(text) => Netmask.PrefixOfMaskText(text)
  }

  /** A prefix length, or a netmask of a whole number of octets. */
  predicate OnBoundary(l: Length) {
    l.Plen? || (AskedLength(l).Some? && AskedLength(l).value % 8 == 0)
  }

  /** The callback works with the length asked for exactly for numbers and netmasks of whole octets. */
  lemma AskedLengthMetIff(l: Length, previous: nat)
    requires AskedLength(l).Some?
    ensures LengthOf(l, previous) == AskedLength(l).value <==> OnBoundary(l)
    ensures LengthOf(l, previous) == LengthOf(l, 0)
  {
    if l.MaskText? {
      Netmask.TextLengthExactAtOctets(l.text);
    }
  }

  /** The binding an entry asks to add or remove; nothing for a bad address, a bad length or a missing interface. */
  function AskedKey(canon: Notation, db: Database, e: Entry): Option<Key> {
    if HasInterface(db, e.itf) && AskedLength(e.length).Some?
    then KeyOf(canon, e.itf, e.ip, AskedLength(e.length).value) else None
  }

  /** What the first k entries ask for: each one's binding added or removed in turn. */
  function Asked(canon: Notation, db: Database, es: seq<Entry>, k: nat): Database
    requires k <= |es|
  {
    if k == 0 then db
    else
      var before := Asked(canon, db, es, k - 1);
      match AskedKey(canon, db, es[k - 1])
      case Some(key) =>
        if es[k - 1].create then before[key := L3(key.itf, key.address, key.length)] else before - {key}
      case None => before
  }

  function Intended(canon: Notation, db: Database, es: seq<Entry>): Database {
    Asked(canon, db, es, |es|)
  }

  /** The last thing asked about a key. */
  function LastAsked(canon: Notation, db: Database, es: seq<Entry>, k: nat, key: Key): Verdict
    requires k <= |es|
  {
    if k == 0 then Leaves
    else if AskedKey(canon, db, es[k - 1]) == Some(key) then if es[k - 1].create then Puts else Takes
    else LastAsked(canon, db, es, k - 1, key)
  }

  lemma {:induction false} LastAskedDecides(canon: Notation, db: Database, es: seq<Entry>, k: nat, key: Key)
    requires k <= |es|
    ensures At(Asked(canon, db, es, k), key) == Decide(LastAsked(canon, db, es, k, key), key, At(db, key))
  {
    if k > 0 {
      LastAskedDecides(canon, db, es, k - 1, key);
    }
  }

  // ---------- When it is done: any batch ----------

  /** Both verdicts leave the same under the key. */
  ghost predicate SameEffect(db: Database, got: Verdict, want: Verdict, key: Key) {
    || got == want
    || (want == Leaves && Idle(db, got, key))
    || (got == Leaves && Idle(db, want, key))
  }

  lemma SameEffectIff(db: Database, got: Verdict, want: Verdict, key: Key)
    requires key.BindingKey?
    ensures Decide(got, key, At(db, key)) == Decide(want, key, At(db, key)) <==> SameEffect(db, got, want, key)
  {
  }

  /** The keys an entry concerns: the one it asks for, its early, its own and the carried one. */
  function Concerned(canon: Notation, db: Database, es: seq<Entry>, k: nat): set<Key>
    requires k < |es|
  {
    var e, c := es[k], !es[k].create;
    KeySet(AskedKey(canon, db, e))
    + KeySet(KeyOf(canon, e.itf, e.ip, LengthInForce(es, k, e.create)))
    + KeySet(KeyOf(canon, e.itf, e.ip, LengthAt(es, k)))
    + KeySet(KeyOf(canon, e.itf, LastAddress(es, k, c), LengthInForce(es, k, c)))
  }

  lemma {:induction false} TouchedIsConcerned(canon: Notation, db: Database, es: seq<Entry>, k: nat, key: Key)
    requires k < |es| && VerdictAt(canon, db, START, es, k, key) != Leaves
    ensures key in Concerned(canon, db, es, k)
  {
    CursorIs(es, k);
  }

  lemma {:induction false} AskedIsConcerned(canon: Notation, db: Database, es: seq<Entry>, n: nat, key: Key)
    requires n <= |es| && LastAsked(canon, db, es, n, key) != Leaves
    ensures exists k :: 0 <= k < n && key in Concerned(canon, db, es, k)
  {
    if AskedKey(canon, db, es[n - 1]) == Some(key) {
      assert key in Concerned(canon, db, es, n - 1);
    } else {
      AskedIsConcerned(canon, db, es, n - 1, key);
    }
  }

  /** On every key an entry concerns, what is done last has the effect of what is asked last. */
  ghost predicate DoneAsAsked(canon: Notation, db: Database, es: seq<Entry>) {
    forall k, key :: 0 <= k < |es| && key in Concerned(canon, db, es, k) ==>
      SameEffect(db, LastEntryVerdict(canon, db, START, es, key), LastAsked(canon, db, es, |es|, key), key)
  }

  lemma {:induction false} SameAtIff(canon: Notation, db: Database, es: seq<Entry>, key: Key)
    requires canon("").None? && Named(es) && key.BindingKey?
    ensures At(Result(canon, db, es), key) == At(Intended(canon, db, es), key) <==>
            SameEffect(db, LastEntryVerdict(canon, db, START, es, key), LastAsked(canon, db, es, |es|, key), key)
  {
    LastEntryDecides(canon, db, es, key);
    LastAskedDecides(canon, db, es, |es|, key);
    SameEffectIff(db, LastEntryVerdict(canon, db, START, es, key), LastAsked(canon, db, es, |es|, key), key);
  }

  lemma {:induction false} UnconcernedSame(canon: Notation, db: Database, es: seq<Entry>, key: Key)
    requires canon("").None? && Named(es)
    requires forall k :: 0 <= k < |es| ==> key !in Concerned(canon, db, es, k)
    ensures At(Result(canon, db, es), key) == At(Intended(canon, db, es), key)
  {
    LastEntryDecides(canon, db, es, key);
    LastAskedDecides(canon, db, es, |es|, key);
    LastToTouch(canon, db, START, es, key);
    forall k | 0 <= k < |es| ensures VerdictAt(canon, db, START, es, k, key) == Leaves {
      if VerdictAt(canon, db, START, es, k, key) != Leaves {
        TouchedIsConcerned(canon, db, es, k, key);
      }
    }
    if LastAsked(canon, db, es, |es|, key) != Leaves {
      AskedIsConcerned(canon, db, es, |es|, key);
    }
  }

  lemma {:induction false} DoneSameAt(canon: Notation, db: Database, es: seq<Entry>, key: Key)
    requires canon("").None? && Named(es) && DoneAsAsked(canon, db, es)
    ensures At(Result(canon, db, es), key) == At(Intended(canon, db, es), key)
  {
    if k :| 0 <= k < |es| && key in Concerned(canon, db, es, k) {
      SameAtIff(canon, db, es, key);
    } else {
      UnconcernedSame(canon, db, es, key);
    }
  }

  lemma {:induction false} SameIsDone(canon: Notation, db: Database, es: seq<Entry>)
    requires canon("").None? && Named(es)
    requires forall key :: At(Result(canon, db, es), key) == At(Intended(canon, db, es), key)
    ensures DoneAsAsked(canon, db, es)
  {
    forall k, key | 0 <= k < |es| && key in Concerned(canon, db, es, k)
      ensures SameEffect(db, LastEntryVerdict(canon, db, START, es, key), LastAsked(canon, db, es, |es|, key), key)
    {
      SameAtIff(canon, db, es, key);
    }
  }

  /**
   * The callback does just what a batch of creations and deletions asks for, one address on both sides, netmasks
   * of any kind and any writes refused included, if and only if on each of the at most four keys per entry the last
   * thing done has the effect of the last thing asked.
   */
  lemma {:induction false} IntendedIff(canon: Notation, db: Database, es: seq<Entry>)
    requires canon("").None? && Named(es)
    ensures Result(canon, db, es) == Intended(canon, db, es) <==> DoneAsAsked(canon, db, es)
  {
    if DoneAsAsked(canon, db, es) {
      forall key ensures At(Result(canon, db, es), key) == At(Intended(canon, db, es), key) {
        DoneSameAt(canon, db, es, key);
      }
      SameEverywhere(Result(canon, db, es), Intended(canon, db, es));
    }
    if Result(canon, db, es) == Intended(canon, db, es) {
      SameIsDone(canon, db, es);
    }
  }

  // ---------- When it is done: no address on both sides ----------

  /** The k-th entry, of that kind, asks about the key. */
  ghost predicate AskedBy(canon: Notation, db: Database, es: seq<Entry>, k: int, create: bool, key: Key) {
    0 <= k < |es| && es[k].create == create && AskedKey(canon, db, es[k]) == Some(key)
  }

  ghost predicate AskedBySome(canon: Notation, db: Database, es: seq<Entry>, create: bool, key: Key) {
    exists k :: AskedBy(canon, db, es, k, create, key)
  }

  lemma {:induction false} LastAskedFrom(canon: Notation, db: Database, es: seq<Entry>, n: nat, key: Key)
    requires n <= |es|
    ensures match LastAsked(canon, db, es, n, key)
            case Puts => AskedBySome(canon, db, es, true, key)
            case Takes => AskedBySome(canon, db, es, false, key)
            case Leaves => forall k, c :: k < n ==> !AskedBy(canon, db, es, k, c, key)
  {
    if n > 0 {
      if AskedKey(canon, db, es[n - 1]) == Some(key) {
        assert AskedBy(canon, db, es, n - 1, es[n - 1].create, key);
      } else {
        LastAskedFrom(canon, db, es, n - 1, key);
      }
    }
  }

  lemma {:induction false} AskedAddress(canon: Notation, db: Database, es: seq<Entry>, create: bool, key: Key)
    requires AskedBySome(canon, db, es, create, key)
    ensures key.BindingKey? && key.address in Addresses(canon, es, create)
  {
    var k :| AskedBy(canon, db, es, k, create, key);
    InAddresses(canon, es, k);
  }

  lemma {:induction false} BindsCreatedAddress(canon: Notation, db: Database, es: seq<Entry>, i: nat, key: Key)
    requires canon("").None? && Binds(canon, db, es, i, key)
    ensures key.BindingKey? && key.address in Addresses(canon, es, true)
  {
    if es[i].create {
      InAddresses(canon, es, i);
    } else {
      LastAddressFrom(es, i, true);
      var j :| 0 <= j < i && es[j].create && es[j].ip == LastAddress(es, i, true);
      InAddresses(canon, es, j);
    }
  }

  /** No key is bound or asked for by one entry and removed, or asked to go, by another. */
  lemma {:induction false} Separate(canon: Notation, db: Database, es: seq<Entry>, key: Key)
    requires canon("").None? && Unclashing(canon, es)
    ensures !((BoundBySome(canon, db, es, key) || AskedBySome(canon, db, es, true, key))
              && (UnboundBySome(canon, db, es, key) || AskedBySome(canon, db, es, false, key)))
  {
    if AskedBySome(canon, db, es, true, key) {
      AskedAddress(canon, db, es, true, key);
    } else if i :| Binds(canon, db, es, i, key) {
      BindsCreatedAddress(canon, db, es, i, key);
    }
    if AskedBySome(canon, db, es, false, key) {
      AskedAddress(canon, db, es, false, key);
    } else if i :| Unbinds(canon, db, es, i, key) {
      UnbindsDeletedAddress(canon, db, es, i, key);
    }
  }

  /** Binding this key is asked for, or changes nothing. */
  ghost predicate Wanted(canon: Notation, db: Database, es: seq<Entry>, key: Key) {
    Holds(db, key) || AskedBySome(canon, db, es, true, key)
  }

  /** Removing this key is asked for, or changes nothing. */
  ghost predicate Unwanted(canon: Notation, db: Database, es: seq<Entry>, key: Key) {
    key !in db || AskedBySome(canon, db, es, false, key)
  }

  /** The key is left as asked: nothing done that is not asked for, nothing asked for that is not done. */
  ghost predicate Clean(canon: Notation, db: Database, es: seq<Entry>, key: Key) {
    && (BoundBySome(canon, db, es, key) ==> Wanted(canon, db, es, key))
    && (UnboundBySome(canon, db, es, key) ==> Unwanted(canon, db, es, key))
    && (AskedBySome(canon, db, es, true, key) ==> Holds(db, key) || BoundBySome(canon, db, es, key))
    && (AskedBySome(canon, db, es, false, key) ==> key !in db || UnboundBySome(canon, db, es, key))
  }

  lemma {:induction false} AgreeOnIff(canon: Notation, db: Database, es: seq<Entry>, key: Key)
    requires canon("").None? && Named(es) && Unclashing(canon, es)
    ensures At(Result(canon, db, es), key) == At(Intended(canon, db, es), key) <==> Clean(canon, db, es, key)
  {
    MixedBatchByEntries(canon, db, es, key);
    LastAskedDecides(canon, db, es, |es|, key);
    LastAskedFrom(canon, db, es, |es|, key);
    Separate(canon, db, es, key);
  }

  /**
   * What an entry does to its own address is asked for or changes nothing: under the length in force before it
   * and under the length the callback derives from its leaf. And what it asks for is done by some entry, or was
   * the case already.
   */
  ghost predicate OwnHarmless(canon: Notation, db: Database, es: seq<Entry>, k: nat)
    requires k < |es|
  {
    && (Bindable(canon, db, es[k]) ==>
          var early, own := EarlyKey(canon, es, k), OwnKey(canon, es, k);
          if es[k].create then
            && (es[k].accepted.ip ==> Wanted(canon, db, es, early))
            && (BoundBySome(canon, db, es, own) ==> Wanted(canon, db, es, own))
          else Unwanted(canon, db, es, early) && Unwanted(canon, db, es, own))
    && match AskedKey(canon, db, es[k])
       case Some(key) =>
         if es[k].create then Holds(db, key) || BoundBySome(canon, db, es, key)
         else key !in db || UnboundBySome(canon, db, es, key)
       case None => true
  }

  /** What an entry does to the last address of the other kind, on its own interface, likewise. */
  ghost predicate CarryHarmless(canon: Notation, db: Database, es: seq<Entry>, k: nat)
    requires k < |es|
  {
    HasInterface(db, es[k].itf) && canon(LastAddress(es, k, !es[k].create)).Some? ==>
      if es[k].create then Unwanted(canon, db, es, CarriedKey(canon, es, k))
      else
        es[k].accepted.list || es[k].accepted.ip || es[k].accepted.length ==>
          Wanted(canon, db, es, CarriedKey(canon, es, k))
  }

  ghost predicate Harmless(canon: Notation, db: Database, es: seq<Entry>) {
    forall k :: 0 <= k < |es| ==> OwnHarmless(canon, db, es, k) && CarryHarmless(canon, db, es, k)
  }

  lemma {:induction false} HarmlessEntry(canon: Notation, db: Database, es: seq<Entry>, k: nat, key: Key)
    requires k < |es| && OwnHarmless(canon, db, es, k) && CarryHarmless(canon, db, es, k)
    ensures Binds(canon, db, es, k, key) ==> Wanted(canon, db, es, key)
    ensures Unbinds(canon, db, es, k, key) ==> Unwanted(canon, db, es, key)
    ensures AskedBy(canon, db, es, k, true, key) ==> Holds(db, key) || BoundBySome(canon, db, es, key)
    ensures AskedBy(canon, db, es, k, false, key) ==> key !in db || UnboundBySome(canon, db, es, key)
  {
  }

  lemma {:induction false} HarmlessIsClean(canon: Notation, db: Database, es: seq<Entry>, key: Key)
    requires Harmless(canon, db, es)
    ensures Clean(canon, db, es, key)
  {
    forall k: nat | k < |es|
      ensures Binds(canon, db, es, k, key) ==> Wanted(canon, db, es, key)
      ensures Unbinds(canon, db, es, k, key) ==> Unwanted(canon, db, es, key)
      ensures AskedBy(canon, db, es, k, true, key) ==> Holds(db, key) || BoundBySome(canon, db, es, key)
      ensures AskedBy(canon, db, es, k, false, key) ==> key !in db || UnboundBySome(canon, db, es, key)
    {
      HarmlessEntry(canon, db, es, k, key);
    }
  }

  lemma {:induction false} CleanIsHarmless(canon: Notation, db: Database, es: seq<Entry>, k: nat)
    requires k < |es| && forall key :: Clean(canon, db, es, key)
    ensures OwnHarmless(canon, db, es, k) && CarryHarmless(canon, db, es, k)
  {
    if Bindable(canon, db, es[k]) {
      var early, own := EarlyKey(canon, es, k), OwnKey(canon, es, k);
      assert Clean(canon, db, es, early) && Clean(canon, db, es, own);
      assert es[k].create && es[k].accepted.ip ==> Binds(canon, db, es, k, early);
      assert !es[k].create ==> Unbinds(canon, db, es, k, early) && Unbinds(canon, db, es, k, own);
    }
    if key :| AskedKey(canon, db, es[k]) == Some(key) {
      assert Clean(canon, db, es, key) && AskedBy(canon, db, es, k, es[k].create, key);
    }
    if HasInterface(db, es[k].itf) && canon(LastAddress(es, k, !es[k].create)).Some? {
      var key := CarriedKey(canon, es, k);
      assert Clean(canon, db, es, key);
      if es[k].create {
        assert Unbinds(canon, db, es, k, key);
      } else if es[k].accepted.list || es[k].accepted.ip || es[k].accepted.length {
        assert Binds(canon, db, es, k, key);
      }
    }
  }

  /**
   * Where no address is both created and deleted, the condition is one on each entry: what it binds and removes
   * under the previous length, under the length the callback derives, and for the last entry of the other kind,
   * is asked for or changes nothing, and what it asks for gets done.
   */
  lemma {:induction false} IntendedIffHarmless(canon: Notation, db: Database, es: seq<Entry>)
    requires canon("").None? && Named(es) && Unclashing(canon, es)
    ensures Result(canon, db, es) == Intended(canon, db, es) <==> Harmless(canon, db, es)
  {
    forall key
      ensures At(Result(canon, db, es), key) == At(Intended(canon, db, es), key) <==> Clean(canon, db, es, key)
    {
      AgreeOnIff(canon, db, es, key);
    }
    if Harmless(canon, db, es) {
      forall key ensures At(Result(canon, db, es), key) == At(Intended(canon, db, es), key) {
        HarmlessIsClean(canon, db, es, key);
      }
      SameEverywhere(Result(canon, db, es), Intended(canon, db, es));
    }
    if Result(canon, db, es) == Intended(canon, db, es) {
      forall k | 0 <= k < |es| ensures OwnHarmless(canon, db, es, k) && CarryHarmless(canon, db, es, k) {
        CleanIsHarmless(canon, db, es, k);
      }
    }
  }

  /** On one interface the carried binding is the own binding of an earlier entry. */
  lemma {:induction false} OneInterfaceCarryHarmless(canon: Notation, db: Database, es: seq<Entry>, k: nat)
    requires canon("").None? && k < |es|
    requires forall j :: 0 <= j < |es| ==> es[j].itf == es[k].itf && OwnHarmless(canon, db, es, j)
    ensures CarryHarmless(canon, db, es, k)
  {
    var c := !es[k].create;
    if HasInterface(db, es[k].itf) && canon(LastAddress(es, k, c)).Some? {
      LastAddressFrom(es, k, c);
      var j :| 0 <= j < k && es[j].create == c && es[j].ip == LastAddress(es, k, c)
               && LengthAt(es, j) == LengthInForce(es, k, c);
      assert OwnHarmless(canon, db, es, j) && CarriedKey(canon, es, k) == OwnKey(canon, es, j);
      if !es[k].create && (es[k].accepted.list || es[k].accepted.ip || es[k].accepted.length) {
        assert Binds(canon, db, es, k, OwnKey(canon, es, j));
      }
    }
  }

  /** The same for a batch on one interface, where only what an entry does to its own address can do harm. */
  lemma {:induction false} OneInterfaceIntendedIff(canon: Notation, db: Database, es: seq<Entry>)
    requires canon("").None? && Named(es) && Unclashing(canon, es)
    requires forall j, k :: 0 <= j < |es| && 0 <= k < |es| ==> es[j].itf == es[k].itf
    ensures Result(canon, db, es) == Intended(canon, db, es) <==>
            forall k :: 0 <= k < |es| ==> OwnHarmless(canon, db, es, k)
  {
    IntendedIffHarmless(canon, db, es);
    if forall k :: 0 <= k < |es| ==> OwnHarmless(canon, db, es, k) {
      forall k | 0 <= k < |es| ensures CarryHarmless(canon, db, es, k) {
        OneInterfaceCarryHarmless(canon, db, es, k);
      }
    }
  }

  // ---------- Where it spills ----------

  /** A single creation also binds the address under length 0, the length before any entry. */
  lemma {:induction false} FirstCreationAlsoBindsLengthZero(canon: Notation, db: Database, e: Entry)
    requires canon("").None? && e.itf != "" && e.create && Bindable(canon, db, e) && e.accepted.ip
    ensures Holds(Result(canon, db, [e]), BindingKey(e.itf, canon(e.ip).value, 0))
  {
    var es, key := [e], BindingKey(e.itf, canon(e.ip).value, 0);
    assert es[0] == e && Binds(canon, db, es, 0, key);
    NoAddresses(canon, es, true);
    MixedBatchByEntries(canon, db, es, key);
  }

  /** A netmask that is not of whole octets is bound under the length rounded up, and not under its own. */
  lemma {:induction false} OffBoundaryMaskMisbinds(canon: Notation, db: Database, e: Entry)
    requires canon("").None? && e.itf != "" && e.create && Bindable(canon, db, e) && e.accepted.length
    requires AskedLength(e.length).Some? && !OnBoundary(e.length)
    ensures var p := AskedLength(e.length).value;
            && Holds(Result(canon, db, [e]), BindingKey(e.itf, canon(e.ip).value, Netmask.RoundUpToOctet(p)))
            && (BindingKey(e.itf, canon(e.ip).value, p) !in db ==>
                  BindingKey(e.itf, canon(e.ip).value, p) !in Result(canon, db, [e])
                  && Result(canon, db, [e]) != Intended(canon, db, [e]))
  {
    var es, p := [e], AskedLength(e.length).value;
    var asked := BindingKey(e.itf, canon(e.ip).value, p);
    Netmask.TextLengthExactAtOctets(e.length.text);
    assert es[0] == e && LengthAt(es, 0) == Netmask.RoundUpToOctet(p) != p && p != 0;
    NoAddresses(canon, es, true);
    CreatedPresentDeletedAbsent(canon, db, es, 0);
    if asked !in db {
      AllCreateExact(canon, db, es, asked);
      LastAskedDecides(canon, db, es, 1, asked);
      assert LastAsked(canon, db, es, 1, asked) == Puts;
    }
  }

  /** Creating an address with this length leaf, on its own and with its writes accepted, binds it as asked. */
  ghost predicate AlwaysBound(canon: Notation, l: Length) {
    forall db, e: Entry :: CreatesWith(canon, db, e, l) ==>
      AskedKey(canon, db, e).Some? && Holds(Result(canon, db, [e]), AskedKey(canon, db, e).value)
  }

  ghost predicate CreatesWith(canon: Notation, db: Database, e: Entry, l: Length) {
    e.create && e.itf != "" && e.length == l && Bindable(canon, db, e) && e.accepted == YES
  }

  /** A length leaf that asks for a length is always bound as asked exactly when it is a number or of whole octets. */
  lemma {:induction false} AlwaysBoundIffOnBoundary(canon: Notation, l: Length, address: string)
    requires canon("").None? && canon(address).Some? && AskedLength(l).Some?
    ensures AlwaysBound(canon, l) <==> OnBoundary(l)
  {
    if OnBoundary(l) {
      forall db, e: Entry | CreatesWith(canon, db, e, l)
        ensures AskedKey(canon, db, e).Some? && Holds(Result(canon, db, [e]), AskedKey(canon, db, e).value)
      {
        NoAddresses(canon, [e], true);
        AskedLengthMetIff(l, 0);
        assert [e][0] == e && LengthInForce([e], 0, true) == 0;
        CreatedPresentDeletedAbsent(canon, db, [e], 0);
      }
    } else {
      var db := map[InterfaceKey("eth0") := Interface("eth0", true)];
      var e := Entry(true, "eth0", address, l, YES);
      OffBoundaryMaskMisbinds(canon, db, e);
      assert CreatesWith(canon, db, e, l);
    }
  }

  lemma {:induction false} SingleAddress(canon: Notation, e: Entry, create: bool)
    ensures Addresses(canon, [e], create) == if e.create == create then Canonical(canon, e.ip) else {}
  {
    assert [e][1..] == [] && Addresses(canon, [], create) == {};
  }

  lemma {:induction false} PairUnclashing(canon: Notation, c: Entry, d: Entry)
    requires c.create ==> d.create || canon(c.ip) != canon(d.ip)
    requires !c.create ==> !d.create || canon(c.ip) != canon(d.ip)
    ensures Unclashing(canon, [c, d])
  {
    assert [c, d][1..] == [d];
    SingleAddress(canon, d, true);
    SingleAddress(canon, d, false);
  }

  /**
   * Creating an address on one interface and deleting another address on a second interface, in one
   * batch, also binds the created address to the second interface.
   */
  lemma {:induction false} CreationLeaksToOtherInterface(canon: Notation, db: Database, c: Entry, d: Entry)
    requires canon("").None? && c.itf != "" && d.itf != "" && c.itf != d.itf
    requires c.create && !d.create && Bindable(canon, db, c) && Bindable(canon, db, d) && d.accepted.length
    requires canon(c.ip) != canon(d.ip)
    ensures Unclashing(canon, [c, d])
    ensures var key := BindingKey(d.itf, canon(c.ip).value, LengthOf(c.length, 0));
            && Holds(Result(canon, db, [c, d]), key)
            && (key !in db ==> Result(canon, db, [c, d]) != Intended(canon, db, [c, d]))
  {
    var es := [c, d];
    var key := BindingKey(d.itf, canon(c.ip).value, LengthOf(c.length, 0));
    PairUnclashing(canon, c, d);
    assert es[0] == c && es[1] == d;
    assert LastAddress(es, 1, true) == c.ip && LengthInForce(es, 1, true) == LengthOf(c.length, 0);
    assert Binds(canon, db, es, 1, key);
    MixedBatchByEntries(canon, db, es, key);
    if key !in db {
      LastAskedDecides(canon, db, es, 2, key);
      assert LastAsked(canon, db, es, 1, key) == Leaves && LastAsked(canon, db, es, 2, key) == Leaves;
    }
  }

  lemma EmptyIsNoQuad()
    ensures V4("").None?
  {
    assert Fields("") == [""];
  }

  lemma TwoAddresses() returns (a: string, b: string)
    ensures V4(a).Some? && V4(b).Some? && V4(a) != V4(b) && V4("").None?
  {
    var q, r := Quad(10, 0, 0, 1), Quad(10, 0, 0, 2);
    a, b := PrintQuad(q), PrintQuad(r);
    ParseQuadExact(a, q);
    ParseQuadExact(b, r);
    ParseQuadExact(b, q);
    EmptyIsNoQuad();
  }

  /** A spill on plain IPv4: what was asked for is not what is in the database. */
  lemma SpillExample()
    ensures exists db: Database, es: seq<Entry> ::
              Named(es) && Unclashing(V4, es) && Result(V4, db, es) != Intended(V4, db, es)
  {
    var db := map[InterfaceKey("eth0") := Interface("eth0", true), InterfaceKey("eth1") := Interface("eth1", true)];
    var a, b := TwoAddresses();
    var c := Entry(true, "eth0", a, Plen(24), YES);
    var d := Entry(false, "eth1", b, Plen(24), YES);
    CreationLeaksToOtherInterface(V4, db, c, d);
    assert Named([c, d]);
  }

  // ---------- What success means ----------

  /** An entry took effect: what it asks to bind is bound, what it asks to remove is gone, and it asks for something. */
  ghost predicate Applied(canon: Notation, db: Database, es: seq<Entry>, k: nat)
    requires k < |es|
  {
    match AskedKey(canon, db, es[k])
    case Some(key) =>
      if es[k].create then Holds(Result(canon, db, es), key) else key !in Result(canon, db, es)
    case None => false
  }

  /**
   * An entry can take effect: it asks for something, and the last entry to touch that key does just that, or
   * none touches it and it is so already.
   */
  ghost predicate Applicable(canon: Notation, db: Database, es: seq<Entry>, k: nat)
    requires k < |es|
  {
    match AskedKey(canon, db, es[k])
    case Some(key) =>
      var v := LastEntryVerdict(canon, db, START, es, key);
      if es[k].create then v == Puts || (v == Leaves && Holds(db, key))
      else v == Takes || (v == Leaves && key !in db)
    case None => false
  }

  lemma {:induction false} AppliedIff(canon: Notation, db: Database, es: seq<Entry>, k: nat)
    requires canon("").None? && Named(es) && k < |es|
    ensures Applied(canon, db, es, k) <==> Applicable(canon, db, es, k)
  {
    if key :| AskedKey(canon, db, es[k]) == Some(key) {
      LastEntryDecides(canon, db, es, key);
    }
  }

  /**
   * Success means that every entry took effect, for any batch of creations and deletions and with any writes
   * refused, exactly when the last action fails or all entries are applicable.
   */
  lemma {:induction false} SuccessHonestIff(canon: Notation, db: Database, es: seq<Entry>)
    requires canon("").None? && es != [] && Named(es) && Addressed(es)
    ensures (Callback(canon, db, Verify, Batch(es)).rc == Ok ==>
               forall k :: 0 <= k < |es| ==> Applied(canon, db, es, k))
            <==>
            var n, last := |es|, es[|es| - 1];
            || LastActionCode(canon, db, LastAddress(es, n, true), LastAddress(es, n, false), last.itf,
                              last.accepted.length) != Ok
            || forall k :: 0 <= k < |es| ==> Applicable(canon, db, es, k)
  {
    LastActionDecidesCode(canon, db, es);
    forall k | 0 <= k < |es| ensures Applied(canon, db, es, k) <==> Applicable(canon, db, es, k) {
      AppliedIff(canon, db, es, k);
    }
  }

  /** A creation whose writes are all refused, hidden behind one that succeeds. */
  lemma {:induction false} RefusalHiddenBehindSuccess(canon: Notation, db: Database, c: Entry, d: Entry)
    requires canon("").None? && c.itf != "" && c.ip != "" && d.itf != "" && d.ip != ""
    requires c.create && d.create && Bindable(canon, db, c) && Bindable(canon, db, d) && canon(c.ip) != canon(d.ip)
    requires c.accepted == Answers(false, false, false) && d.accepted == YES
    requires AskedKey(canon, db, c).Some? ==> AskedKey(canon, db, c).value !in db
    ensures Callback(canon, db, Verify, Batch([c, d])).rc == Ok && !Applied(canon, db, [c, d], 0)
  {
    var es := [c, d];
    assert es[0] == c && es[1] == d;
    LastActionDecidesCode(canon, db, es);
    if key :| AskedKey(canon, db, c) == Some(key) {
      PairVerdict(canon, db, c, d, key);
    }
  }

  /** On plain IPv4: success is returned and an entry did not take effect. */
  lemma HiddenRefusalExample()
    ensures exists db: Database, es: seq<Entry> ::
              && es != [] && Named(es)
              && Callback(V4, db, Verify, Batch(es)).rc == Ok && !Applied(V4, db, es, 0)
  {
    var db := map[InterfaceKey("eth0") := Interface("eth0", true)];
    var a, b := TwoAddresses();
    var c := Entry(true, "eth0", a, Plen(24), Answers(false, false, false));
    var d := Entry(true, "eth0", b, Plen(24), YES);
    RefusalHiddenBehindSuccess(V4, db, c, d);
    assert Named([c, d]);
  }
}
