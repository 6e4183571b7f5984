/**
 * Address and prefix text (src/plugins/sys_util.cpp). An address is represented by its canonical text;
 * a notation is what boost accepts as an address, given as the map from a text to its canonical text.
 */
module Prefix {
  import opened Wrappers
  import Decimal

  type Notation = string -> Option<string>

  /** What every theorem asks of a notation: canonical texts are fixed points, with no '/' and no '_'. */
  ghost predicate Lawful(canon: Notation) {
    && canon("").None?
    && forall s :: LawfulAt(canon, s)
  }

  ghost predicate LawfulAt(canon: Notation, s: string) {
    canon(s).Some? ==>
      && canon(canon(s).value) == canon(s)
      && '/' !in canon(s).value
      && '_' !in canon(s).value
  }

  // ---------- IPv4 dotted quads ----------

  type Octet = n: nat | n < 256

  datatype Quad = Quad(a: Octet, b: Octet, c: Octet, d: Octet)

  function PrintQuad(q: Quad): string {
    Decimal.Print(q.a) + "." + Decimal.Print(q.b) + "." + Decimal.Print(q.c) + "." + Decimal.Print(q.d)
  }

  /** The fields of a text between its dots. */
  function Fields(s: string): (f: seq<string>)
    ensures |f| > 0
  {
    if s == "" then [""]
    else
      var rest := Fields(s[1..]);
      if s[0] == '.' then [""] + rest else [[s[0]] + rest[0]] + rest[1..]
  }

  /** inet_pton on an octet: digits, no leading zero, at most 255. */
  predicate IsOctet(s: string) {
    Decimal.IsNumeral(s) && Decimal.Value(s) < 256
  }

  function ParseQuad(s: string): Option<Quad> {
    var f := Fields(s);
    if |f| == 4 && IsOctet(f[0]) && IsOctet(f[1]) && IsOctet(f[2]) && IsOctet(f[3])
    then Some(Quad(Decimal.Value(f[0]), Decimal.Value(f[1]), Decimal.Value(f[2]), Decimal.Value(f[3])))
    else None
  }

  lemma {:induction false} FieldsOfDigits(s: string, rest: string)
    requires Decimal.AllDigits(s)
    ensures Fields(s) == [s]
    ensures Fields(s + "." + rest) == [s] + Fields(rest)
  {
    if s == "" {
      assert (s + "." + rest)[1..] == rest;
    } else {
      FieldsOfDigits(s[1..], rest);
      assert (s + "." + rest)[1..] == s[1..] + "." + rest;
      assert [s[0]] + s[1..] == s;
    }
  }

  /** Joining the fields with dots gives the text back. */
  lemma {:induction false} JoinFields(s: string)
    ensures Join(Fields(s)) == s
  {
    if s != "" {
      JoinFields(s[1..]);
      var rest := Fields(s[1..]);
      if s[0] == '.' {
        assert ([""] + rest)[1..] == rest;
      } else {
        var f := [[s[0]] + rest[0]] + rest[1..];
        assert f[1..] == rest[1..];
        assert Join(f) == [s[0]] + Join(rest);
      }
    }
  }

  function Join(f: seq<string>): string
    requires |f| > 0
  {
    if |f| == 1 then f[0] else f[0] + "." + Join(f[1..])
  }

  lemma JoinFour(f: seq<string>)
    requires |f| == 4
    ensures Join(f) == f[0] + "." + f[1] + "." + f[2] + "." + f[3]
  {
    assert f[1..][1..] == f[2..] && f[2..][1..] == f[3..];
    assert Join(f[2..]) == f[2] + "." + f[3];
    assert Join(f[1..]) == f[1] + "." + Join(f[2..]);
  }

  lemma {:induction false} FieldsOfFour(a: string, b: string, c: string, d: string)
    requires Decimal.AllDigits(a) && Decimal.AllDigits(b) && Decimal.AllDigits(c) && Decimal.AllDigits(d)
    ensures Fields(a + "." + b + "." + c + "." + d) == [a, b, c, d]
  {
    FieldsOfDigits(d, "");
    FieldsOfDigits(c, d);
    FieldsOfTwo(b, c + "." + d, [c, d]);
    FieldsOfTwo(a, b + "." + (c + "." + d), [b, c, d]);
    Regroup(a, b, c, d);
  }

  lemma Regroup(a: string, b: string, c: string, d: string)
    ensures a + "." + b + "." + c + "." + d == a + "." + (b + "." + (c + "." + d))
  {
  }

  lemma {:induction false} FieldsOfTwo(a: string, rest: string, f: seq<string>)
    requires Decimal.AllDigits(a) && Fields(rest) == f
    ensures Fields(a + "." + rest) == [a] + f
  {
    FieldsOfDigits(a, rest);
  }

  /** The dotted-quad parser accepts exactly the printed quads: parsing and printing are mutually inverse. */
  lemma ParseQuadExact(s: string, q: Quad)
    ensures ParseQuad(s) == Some(q) <==> s == PrintQuad(q)
  {
    if s == PrintQuad(q) {
      FieldsOfFour(Decimal.Print(q.a), Decimal.Print(q.b), Decimal.Print(q.c), Decimal.Print(q.d));
      Decimal.ValueOfPrint(q.a);
      Decimal.ValueOfPrint(q.b);
      Decimal.ValueOfPrint(q.c);
      Decimal.ValueOfPrint(q.d);
    }
    if ParseQuad(s) == Some(q) {
      var f := Fields(s);
      Decimal.PrintOfValue(f[0]);
      Decimal.PrintOfValue(f[1]);
      Decimal.PrintOfValue(f[2]);
      Decimal.PrintOfValue(f[3]);
      JoinFields(s);
      JoinFour(f);
    }
  }

  /** Four numerals below 256 between dots are the octets in the order they are written. */
  lemma {:induction false} OctetsInOrder(a: string, b: string, c: string, d: string)
    requires IsOctet(a) && IsOctet(b) && IsOctet(c) && IsOctet(d)
    ensures ParseQuad(a + "." + b + "." + c + "." + d)
         == Some(Quad(Decimal.Value(a), Decimal.Value(b), Decimal.Value(c), Decimal.Value(d)))
  {
    FieldsOfFour(a, b, c, d);
    QuadOfFields(a + "." + b + "." + c + "." + d, a, b, c, d);
  }

  lemma {:induction false} QuadOfFields(s: string, a: string, b: string, c: string, d: string)
    requires Fields(s) == [a, b, c, d] && IsOctet(a) && IsOctet(b) && IsOctet(c) && IsOctet(d)
    ensures ParseQuad(s) == Some(Quad(Decimal.Value(a), Decimal.Value(b), Decimal.Value(c), Decimal.Value(d)))
  {
  }

  /** And no other text is a quad. */
  lemma {:induction false} OnlyOctetTexts(s: string)
    requires ParseQuad(s).Some?
    ensures exists a, b, c, d ::
              IsOctet(a) && IsOctet(b) && IsOctet(c) && IsOctet(d) && s == a + "." + b + "." + c + "." + d
  {
    var f := Fields(s);
    JoinFields(s);
    JoinFour(f);
    assert s == f[0] + "." + f[1] + "." + f[2] + "." + f[3];
  }

  /** The IPv4 notation. */
  function V4(s: string): Option<string> {
    match ParseQuad(s)
    case Some(q) => Some(PrintQuad(q))
    case None => None
  }

  /** address::from_string tries IPv6 first and IPv4 after it. */
  function AnyFamily(v6: Notation): Notation {
    (s: string) => if v6(s).Some? then v6(s) else V4(s)
  }

  lemma QuadChars(q: Quad)
    ensures forall i :: 0 <= i < |PrintQuad(q)| ==> Decimal.IsDigit(PrintQuad(q)[i]) || PrintQuad(q)[i] == '.'
  {
  }

  lemma V4Fixed(s: string)
    requires V4(s).Some?
    ensures V4(s) == Some(s) && '/' !in s && '_' !in s && ':' !in s
  {
    var q := ParseQuad(s).value;
    ParseQuadExact(s, q);
    QuadChars(q);
  }

  /**
   * Any lawful IPv6 notation that only accepts texts with a colon, and prints them with one, makes the
   * combined notation lawful; the IPv4 notation alone is lawful too.
   */
  lemma {:induction false} AnyFamilyLawful(v6: Notation)
    requires Lawful(v6)
    requires forall s :: v6(s).Some? ==> ':' in s
    ensures Lawful(AnyFamily(v6)) && Lawful(V4)
    ensures forall s :: AnyFamily(v6)(s) == if ':' in s then v6(s) else V4(s)
  {
    forall s
      ensures LawfulAt(V4, s) && LawfulAt(AnyFamily(v6), s)
      ensures AnyFamily(v6)(s) == if ':' in s then v6(s) else V4(s)
    {
      assert LawfulAt(v6, s);
      if V4(s).Some? {
        V4Fixed(s);
      }
    }
    assert Fields("") == [""];
  }

  // ---------- Prefixes ----------

  datatype Prefix = Prefix(address: string, length: nat)

  /** A prefix the class can hold: a canonical address and an unsigned short. */
  ghost predicate WellFormed(canon: Notation, p: Prefix) {
    canon(p.address) == Some(p.address) && p.length < 65536
  }

  datatype Parsed = Good(prefix: Prefix) | MissingSlash | BadAddress | BadLength

  /** prefix::to_string */
  function Print(p: Prefix): (s: string)
    ensures s != ""
  {
    p.address + "/" + Decimal.Print(p.length)
  }

  /** std::string::find_last_of on one character. */
  function FindLast(s: string, c: char): (r: Option<nat>)
    ensures r.None? <==> c !in s
    ensures r.Some? ==> r.value < |s| && s[r.value] == c && forall i :: r.value < i < |s| ==> s[i] != c
  {
    if s == "" then None
    else if s[|s| - 1] == c then Some(|s| - 1)
    else
      assert s == s[..|s| - 1] + [s[|s| - 1]];
      FindLast(s[..|s| - 1], c)
  }

  predicate IsSpace(c: char) { c == ' ' || '\t' <= c <= '\r' }

  function SkipSpaces(s: string): string {
    if s != "" && IsSpace(s[0]) then SkipSpaces(s[1..]) else s
  }

  /** The longest run of digits a text starts with. */
  function DigitRun(s: string): (d: string)
    ensures Decimal.AllDigits(d) && d <= s
    ensures Decimal.AllDigits(s) ==> d == s
  {
    if s != "" && Decimal.IsDigit(s[0]) then [s[0]] + DigitRun(s[1..]) else ""
  }

  /** std::stoi: blanks, a sign, digits, anything after; it throws on no digits or outside an int. */
  function Stoi(s: string): Option<int> {
    Strtol(SkipSpaces(s))
  }

  function Strtol(t: string): Option<int> {
    var negative := t != "" && t[0] == '-';
    var signed := t != "" && (t[0] == '-' || t[0] == '+');
    var digits := DigitRun(if signed then t[1..] else t);
    var magnitude: int := Decimal.Value(digits);
    var n := if negative then -magnitude else magnitude;
    if digits == "" || !(-0x8000_0000 <= n < 0x8000_0000) then None else Some(n)
  }

  /** The prefix string constructor; the length is stored in an unsigned short. */
  function Parse(canon: Notation, s: string): Parsed {
    match FindLast(s, '/')
    case None => MissingSlash
    case Some(i) =>
      match canon(s[..i])
      case None => BadAddress
      case Some(a) =>
        match Stoi(s[i + 1..])
        case None => BadLength
        case Some(n) => Good(Prefix(a, n % 65536))
  }

  lemma {:induction false} FindLastAt(a: string, c: char, b: string)
    requires c !in b
    ensures FindLast(a + [c] + b, c) == Some(|a|)
  {
    var s := a + [c] + b;
    var r := FindLast(s, c);
    assert s[|a|] == c;
    assert forall i :: |a| < i < |s| ==> s[i] == b[i - |a| - 1];
  }

  lemma StoiOfPrint(n: nat)
    requires n < 0x8000_0000
    ensures Stoi(Decimal.Print(n)) == Some(n)
  {
    var s := Decimal.Print(n);
    assert Decimal.IsDigit(s[0]);
    assert SkipSpaces(s) == s;
    Decimal.ValueOfPrint(n);
  }

  lemma FitsShort(n: nat)
    requires n < 65536
    ensures n % 65536 == n
  {
  }

  /** The constructor on an address text, a slash and a length text. */
  lemma {:induction false} ParseSplit(canon: Notation, a: string, digits: string, n: nat)
    requires Decimal.AllDigits(digits)
    requires canon(a) == Some(a) && Stoi(digits) == Some(n) && n < 65536
    ensures Parse(canon, a + "/" + digits) == Good(Prefix(a, n))
  {
    var s := a + "/" + digits;
    FitsShort(n);
    FindLastAt(a, '/', digits);
    assert s[..|a|] == a;
    assert s[|a| + 1..] == digits;
  }

  /** Parsing the printed text gives back the same prefix, for every address and every 16-bit length. */
  lemma {:induction false} ParseOfPrint(canon: Notation, p: Prefix)
    requires Lawful(canon) && WellFormed(canon, p)
    ensures Parse(canon, Print(p)) == Good(p)
  {
    StoiOfPrint(p.length);
    ParseSplit(canon, p.address, Decimal.Print(p.length), p.length);
  }

  /** Whatever text was parsed, printing and parsing again changes nothing any more. */
  lemma {:induction false} PrintAfterParse(canon: Notation, s: string)
    requires Lawful(canon) && Parse(canon, s).Good?
    ensures WellFormed(canon, Parse(canon, s).prefix)
    ensures Parse(canon, Print(Parse(canon, s).prefix)) == Parse(canon, s)
  {
    assert LawfulAt(canon, s[..FindLast(s, '/').value]);
    ParseOfPrint(canon, Parse(canon, s).prefix);
  }

  // ---------- Which texts are prefixes ----------

  predicate Blanks(s: string) {
    forall i :: 0 <= i < |s| ==> s[i] in " \t\n\r\U{b}\U{c}"
  }

  predicate StartsWithDigit(s: string) { s != "" && Decimal.IsDigit(s[0]) }

  lemma {:induction false} SkipBlanks(blanks: string, t: string)
    requires Blanks(blanks) && (t != "" ==> !IsSpace(t[0]))
    ensures SkipSpaces(blanks + t) == t
  {
    if blanks == "" {
      assert blanks + t == t;
    } else {
      assert (blanks + t)[1..] == blanks[1..] + t;
      SkipBlanks(blanks[1..], t);
    }
  }

  lemma {:induction false} DigitRunOf(digits: string, rest: string)
    requires Decimal.AllDigits(digits) && !StartsWithDigit(rest)
    ensures DigitRun(digits + rest) == digits
  {
    if digits == "" {
      assert digits + rest == rest;
    } else {
      assert (digits + rest)[1..] == digits[1..] + rest;
      DigitRunOf(digits[1..], rest);
    }
  }

  function InInt(n: int): Option<int> {
    if -0x8000_0000 <= n < 0x8000_0000 then Some(n) else None
  }

  function Negated(n: int): int { -n }

  lemma {:induction false} StrtolUnsigned(t: string)
    requires t != "" ==> t[0] != '-' && t[0] != '+'
    ensures Strtol(t) == if DigitRun(t) == "" then None else InInt(Decimal.Value(DigitRun(t)))
  {
  }

  lemma {:induction false} StrtolSigned(t: string, u: string)
    requires t != "" && (t[0] == '-' || t[0] == '+') && u == t[1..]
    ensures Strtol(t)
         == if DigitRun(u) == "" then None
            else if t[0] == '-' then InInt(Negated(Decimal.Value(DigitRun(u))))
            else InInt(Decimal.Value(DigitRun(u)))
  {
  }

  /**
   * What std::stoi reads: blanks, a sign or none, the digits, and whatever follows them is ignored. It throws when
   * there is no digit or the number is no 32-bit int.
   */
  lemma {:induction false} StoiExact(blanks: string, sign: string, digits: string, rest: string)
    requires Blanks(blanks) && sign in {"", "+", "-"} && Decimal.AllDigits(digits) && !StartsWithDigit(rest)
    requires sign == "" && digits == "" && rest != "" ==> rest[0] != '-' && rest[0] != '+' && !IsSpace(rest[0])
    ensures Stoi(blanks + (sign + (digits + rest)))
         == if digits == "" then None
            else if sign == "-" then InInt(Negated(Decimal.Value(digits)))
            else InInt(Decimal.Value(digits))
  {
    var u := digits + rest;
    var t := sign + u;
    DigitRunOf(digits, rest);
    SkipBlanks(blanks, t);
    if sign == "" {
      assert t == u;
      StrtolUnsigned(t);
    } else {
      assert t[0] == sign[0] && t[1..] == u;
      StrtolSigned(t, u);
    }
  }

  lemma ShortOf(n: int)
    ensures 0 <= n % 65536 < 65536 && (n % 65536 - n) % 65536 == 0
  {
    assert n == n / 65536 * 65536 + n % 65536;
  }

  /** An address text and a number text, read: the canonical address and the number as an unsigned short. */
  ghost predicate Reads(canon: Notation, a: string, t: string, r: Parsed) {
    match canon(a)
    case None => r == BadAddress
    case Some(v) =>
      match Stoi(t)
      case None => r == BadLength
      case Some(n) =>
        r.Good? && r.prefix.address == v && r.prefix.length < 65536 && (r.prefix.length - n) % 65536 == 0
  }

  lemma {:induction false} ParseAt(canon: Notation, s: string, i: nat, a: string, t: string)
    requires FindLast(s, '/') == Some(i) && s[..i] == a && s[i + 1..] == t
    ensures Reads(canon, a, t, Parse(canon, s))
  {
    if canon(a).Some? && Stoi(t).Some? {
      ShortOf(Stoi(t).value);
    }
  }

  /** A text without a slash is refused; in any other the last slash ends the address. */
  lemma {:induction false} ParseExact(canon: Notation, a: string, t: string)
    requires '/' !in t
    ensures Reads(canon, a, t, Parse(canon, a + "/" + t))
    ensures Parse(canon, t) == MissingSlash
  {
    var s := a + "/" + t;
    FindLastAt(a, '/', t);
    assert s[..|a|] == a && s[|a| + 1..] == t;
    ParseAt(canon, s, |a|, a, t);
  }

  /** Every text with a slash is of that form. */
  lemma {:induction false} SplitAtLastSlash(s: string) returns (a: string, t: string)
    requires '/' in s
    ensures s == a + "/" + t && '/' !in t
  {
    var i := FindLast(s, '/').value;
    a, t := s[..i], s[i + 1..];
    forall k | 0 <= k < |t| ensures t[k] != '/' {
      assert t[k] == s[i + 1 + k];
    }
  }
}
