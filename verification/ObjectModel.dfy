/**
 * The VOM object database as the plugins see it: named objects, `write` that may fail and then changes
 * nothing, `remove` that drops a key. `sent` is the stream of commands passed on to VPP.
 *
 * The database is keyed by what a key stands for; the plugins key it by the text they print for it.
 * KeyTextInjective and TextRefines show that nothing is lost, and exactly which interface names break this.
 */
module ObjectModel {
  import opened Wrappers
  import opened Prefix
  import Decimal

  datatype Key =
    | InterfaceKey(name: string)
    | BindingKey(itf: string, address: string, length: nat)
    | MappingKey(index: nat)

  datatype Object =
    | Interface(name: string, up: bool)
    | L3(itf: string, address: string, length: nat)
    | NatStatic(inside: string, outside: string)

  type Database = map<Key, Object>

  datatype Op = Write(key: Key, obj: Object) | Remove(key: Key)

  function Apply(db: Database, op: Op): Database {
    match op
    case Write(k, o) => db[k := o]
    case Remove(k) => db - {k}
  }

  function ApplyAll(db: Database, ops: seq<Op>): Database
    decreases |ops|
  {
    if ops == [] then db else ApplyAll(Apply(db, ops[0]), ops[1..])
  }

  lemma {:induction false} ApplyAllConcat(db: Database, a: seq<Op>, b: seq<Op>)
    ensures ApplyAll(db, a + b) == ApplyAll(ApplyAll(db, a), b)
    decreases |a|
  {
    if a == [] {
      assert a + b == b;
    } else {
      assert (a + b)[1..] == a[1..] + b;
      ApplyAllConcat(Apply(db, a[0]), a[1..], b);
    }
  }

  /** A key that no command names keeps its object. */
  lemma {:induction false} UntouchedKey(db: Database, ops: seq<Op>, key: Key)
    requires forall op :: op in ops ==> op.key != key
    ensures key in ApplyAll(db, ops) <==> key in db
    ensures key in db ==> ApplyAll(db, ops)[key] == db[key]
    decreases |ops|
  {
    if ops != [] {
      UntouchedKey(Apply(db, ops[0]), ops[1..], key);
    }
  }

  /** interface::find */
  predicate HasInterface(db: Database, name: string) { InterfaceKey(name) in db }

  class Om {
    var db: Database
    var sent: seq<Op>

    constructor ()
      ensures db == map[] && sent == []
    {
      db, sent := map[], [];
    }

    /** OM::write; `accepted` is whether VPP takes the command. */
    method Write(key: Key, obj: Object, accepted: bool) returns (ok: bool)
      modifies this
      ensures ok == accepted
      ensures ok ==> db == Apply(old(db), Op.Write(key, obj)) && sent == old(sent) + [Op.Write(key, obj)]
      ensures !ok ==> db == old(db) && sent == old(sent)
    {
      ok := accepted;
      if ok {
        db := db[key := obj];
        sent := sent + [Op.Write(key, obj)];
      }
    }

    /** OM::remove */
    method Remove(key: Key)
      modifies this
      ensures db == Apply(old(db), Op.Remove(key)) && sent == old(sent) + [Op.Remove(key)]
    {
      db := db - {key};
      sent := sent + [Op.Remove(key)];
    }
  }

  // ---------- The text of a key ----------

  /** An interface's name; "l3_", the interface, "_" and the printed prefix; the printed index. */
  function KeyText(k: Key): string {
    match k
    case InterfaceKey(name) => name
    case BindingKey(itf, address, length) => "l3_" + itf + "_" + Print(Prefix(address, length))
    case MappingKey(index) => Decimal.Print(index)
  }

  predicate CleanAddress(a: string) { '_' !in a && '/' !in a }

  /** Reads a binding's text back: the last '_' ends the interface, the last '/' ends the address. */
  function DecodeBinding(text: string): Option<Key> {
    if !("l3_" <= text) then None
    else
      var body := text[3..];
      match FindLast(body, '_')
      case None => None
      case Some(i) => DecodePrefix(body[..i], body[i + 1..])
  }

  function DecodePrefix(itf: string, prefix: string): Option<Key> {
    match FindLast(prefix, '/')
    case None => None
    case Some(j) =>
      var digits := prefix[j + 1..];
      if Decimal.AllDigits(digits) then Some(BindingKey(itf, prefix[..j], Decimal.Value(digits))) else None
  }

  lemma DecodePrefixParts(itf: string, address: string, digits: string)
    requires Decimal.AllDigits(digits)
    ensures DecodePrefix(itf, address + "/" + digits) == Some(BindingKey(itf, address, Decimal.Value(digits)))
  {
    var prefix := address + "/" + digits;
    FindLastAt(address, '/', digits);
    assert prefix[..|address|] == address;
    assert prefix[|address| + 1..] == digits;
  }

  lemma DecodeBindingParts(itf: string, prefix: string)
    requires '_' !in prefix
    ensures DecodeBinding("l3_" + itf + "_" + prefix) == DecodePrefix(itf, prefix)
  {
    var body := itf + "_" + prefix;
    assert ("l3_" + itf + "_" + prefix)[3..] == body;
    FindLastAt(itf, '_', prefix);
    assert body[..|itf|] == itf;
    assert body[|itf| + 1..] == prefix;
  }

  /**
   * A binding's text determines its interface, address and length, whatever the interface name holds
   * (underscores and slashes included), as long as the address has neither.
   */
  lemma DecodeOfKeyText(k: Key)
    requires k.BindingKey? && CleanAddress(k.address)
    ensures DecodeBinding(KeyText(k)) == Some(k)
  {
    var digits := Decimal.Print(k.length);
    DecodeBindingParts(k.itf, k.address + "/" + digits);
    DecodePrefixParts(k.itf, k.address, digits);
    Decimal.ValueOfPrint(k.length);
  }

  /** A key that cannot be taken for another one: the condition falls on interface names only. */
  predicate CleanKey(k: Key) {
    match k
    case InterfaceKey(name) => PlainName(name)
    case BindingKey(_, address, _) => CleanAddress(address)
    case MappingKey(_) => true
  }

  /** A test on the name alone: it is no numeral, and it does not read and print back as a binding's text. */
  predicate PlainName(name: string) {
    && !Decimal.IsNumeral(name)
    && match DecodeBinding(name)
       case None => true
       case Some(k) => !(k.BindingKey? && CleanAddress(k.address) && KeyText(k) == name)
  }

  /** Bindings, NAT mappings and plainly named interfaces never share a key text. */
  lemma KeyTextInjective(a: Key, b: Key)
    requires CleanKey(a) && CleanKey(b)
    requires KeyText(a) == KeyText(b)
    ensures a == b
  {
    KeyTextKind(a);
    KeyTextKind(b);
  }

  /** What the text of a clean key shows. */
  lemma KeyTextKind(k: Key)
    requires CleanKey(k)
    ensures k.BindingKey? ==> DecodeBinding(KeyText(k)) == Some(k) && !Decimal.IsNumeral(KeyText(k))
    ensures k.MappingKey? ==> Decimal.IsNumeral(KeyText(k)) && Decimal.Value(KeyText(k)) == k.index
  {
    match k
    case BindingKey(_, _, _) =>
      DecodeOfKeyText(k);
      assert KeyText(k)[0] == 'l';
    case MappingKey(n) =>
      Decimal.ValueOfPrint(n);
    case InterfaceKey(_) =>
  }

  lemma MappingText(n: nat)
    ensures Decimal.IsNumeral(KeyText(MappingKey(n)))
    ensures !("l3_" <= KeyText(MappingKey(n)))
  {
    assert Decimal.IsDigit(KeyText(MappingKey(n))[0]);
  }

  /** An interface name is the text of some other object's key exactly when the test fails. */
  lemma NameCollidesIffNotPlain(name: string)
    ensures !PlainName(name) <==>
            exists k: Key :: !k.InterfaceKey? && CleanKey(k) && KeyText(k) == KeyText(InterfaceKey(name))
  {
    if Decimal.IsNumeral(name) {
      Decimal.PrintOfValue(name);
      assert KeyText(MappingKey(Decimal.Value(name))) == KeyText(InterfaceKey(name));
    }
    forall k: Key | !k.InterfaceKey? && CleanKey(k) && KeyText(k) == name
      ensures !PlainName(name)
    {
      KeyTextKind(k);
    }
  }

  lemma CollidesWith(name: string, k: Key)
    requires !k.InterfaceKey? && CleanKey(k) && KeyText(k) == name
    ensures !PlainName(name)
  {
    KeyTextKind(k);
  }

  lemma Print24()
    ensures Decimal.Print(24) == "24"
  {
  }

  /** An interface that would take the place of the binding of 10.0.0.1/24 on eth0. */
  lemma CollidingName(name: string, itf: string, address: string, length: nat)
    requires itf == "eth0" && address == "10.0.0.1" && length == 24 && name == "l3_eth0_10.0.0.1/24"
    ensures KeyText(InterfaceKey(name)) == KeyText(BindingKey(itf, address, length)) && !PlainName(name)
  {
    Print24();
    CollidesWith(name, BindingKey(itf, address, length));
  }

  // ---------- The database keyed by text ----------

  type TextDatabase = map<string, Object>

  function TextApply(db: TextDatabase, op: Op): TextDatabase {
    match op
    case Write(k, o) => db[KeyText(k) := o]
    case Remove(k) => db - {KeyText(k)}
  }

  function TextApplyAll(db: TextDatabase, ops: seq<Op>): TextDatabase
    decreases |ops|
  {
    if ops == [] then db else TextApplyAll(TextApply(db, ops[0]), ops[1..])
  }

  /** The text-keyed database holds exactly what the model's database holds. */
  ghost predicate Represents(text: TextDatabase, db: Database) {
    && (forall k :: k in db ==> CleanKey(k) && KeyText(k) in text && text[KeyText(k)] == db[k])
    && (forall t :: t in text ==> exists k :: k in db && KeyText(k) == t)
  }

  lemma TextStep(text: TextDatabase, db: Database, op: Op)
    requires Represents(text, db) && CleanKey(op.key)
    ensures Represents(TextApply(text, op), Apply(db, op))
  {
    var text', db' := TextApply(text, op), Apply(db, op);
    forall k | k in db'
      ensures CleanKey(k) && KeyText(k) in text' && text'[KeyText(k)] == db'[k]
    {
      if k != op.key && KeyText(k) == KeyText(op.key) {
        KeyTextInjective(k, op.key);
      }
    }
    forall t | t in text'
      ensures exists k :: k in db' && KeyText(k) == t
    {
      if op.Write? && t == KeyText(op.key) {
        assert op.key in db';
      } else {
        var k :| k in db && KeyText(k) == t;
        assert k in db';
      }
    }
  }

  /** Running commands on the text-keyed database does what running them on the model's database does. */
  lemma {:induction false} TextRefines(text: TextDatabase, db: Database, ops: seq<Op>)
    requires Represents(text, db)
    requires forall i :: 0 <= i < |ops| ==> CleanKey(ops[i].key)
    ensures Represents(TextApplyAll(text, ops), ApplyAll(db, ops))
    decreases |ops|
  {
    if ops != [] {
      TextStep(text, db, ops[0]);
      TextRefines(TextApply(text, ops[0]), Apply(db, ops[0]), ops[1..]);
    }
  }
}
