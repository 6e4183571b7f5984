/** Decimal text: what `operator<<` and `std::to_string` print for an unsigned number. */
module Decimal {

  predicate IsDigit(c: char) { '0' <= c <= '9' }

  predicate AllDigits(s: string) { forall i :: 0 <= i < |s| ==> IsDigit(s[i]) }

  function DigitChar(d: nat): (c: char)
    requires d < 10
    ensures IsDigit(c) && DigitValue(c) == d
  {
    '0' + d as char
  }

  function DigitValue(c: char): (d: nat)
    requires IsDigit(c)
    ensures d < 10
  {
    (c - '0') as nat
  }

  /** A number as text: digits only and no superfluous leading zero. */
  function Print(n: nat): (s: string)
    ensures IsNumeral(s)
    ensures n != 0 ==> s[0] != '0'
  {
    if n < 10 then [DigitChar(n)] else Print(n / 10) + [DigitChar(n % 10)]
  }

  predicate IsNumeral(s: string) {
    s != "" && AllDigits(s) && (s[0] == '0' ==> |s| == 1)
  }

  function Value(s: string): nat
    requires AllDigits(s)
  {
    if s == "" then 0 else Value(s[..|s| - 1]) * 10 + DigitValue(s[|s| - 1])
  }

  /** Reading back what was printed gives the number, so printing is injective. */
  lemma {:induction false} ValueOfPrint(n: nat)
    ensures Value(Print(n)) == n
  {
    if n < 10 {
      assert Print(n)[..0] == "";
    } else {
      ValueOfPrint(n / 10);
      assert Print(n)[..|Print(n)| - 1] == Print(n / 10);
    }
  }

  lemma PrintSnoc(v: nat, d: nat)
    requires d < 10
    ensures Print(v * 10 + d) == if v == 0 then [DigitChar(d)] else Print(v) + [DigitChar(d)]
  {
    assert (v * 10 + d) / 10 == v && (v * 10 + d) % 10 == d;
  }

  /** Conversely every numeral is the print of its value, so the numerals are exactly the printed texts. */
  lemma {:induction false} PrintOfValue(s: string)
    requires IsNumeral(s)
    ensures Print(Value(s)) == s
    ensures s[0] != '0' ==> Value(s) > 0
  {
    var init, d := s[..|s| - 1], DigitValue(s[|s| - 1]);
    assert Value(s) == Value(init) * 10 + d;
    assert s == init + [DigitChar(d)];
    PrintSnoc(Value(init), d);
    if |s| > 1 {
      PrintOfValue(init);
    }
  }

  function Pow10(e: nat): nat {
    if e == 0 then 1 else 10 * Pow10(e - 1)
  }

  /** Decimal is positional, most significant digit first. */
  lemma {:induction false} ValueConcat(a: string, b: string)
    requires AllDigits(a) && AllDigits(b)
    ensures Value(a + b) == Value(a) * Pow10(|b|) + Value(b)
    decreases |b|
  {
    if b == "" {
      assert a + b == a;
    } else {
      var init, c := b[..|b| - 1], b[|b| - 1];
      assert (a + b)[..|a + b| - 1] == a + init && (a + b)[|a + b| - 1] == c;
      ValueConcat(a, init);
      Distribute(Value(a), Pow10(|init|), Value(init), DigitValue(c));
    }
  }

  lemma Distribute(x: nat, p: nat, v: nat, d: nat)
    ensures (x * p + v) * 10 + d == x * (10 * p) + (v * 10 + d)
  {
  }

  /** The digits are the ten digit characters in their order. */
  lemma DigitText(d: nat)
    requires d < 10
    ensures DigitChar(d) == "0123456789"[d] && Value([DigitChar(d)]) == d
  {
    assert [DigitChar(d)][..0] == "";
  }

  lemma ValueSnoc(init: string, d: nat)
    requires AllDigits(init) && d < 10
    ensures Value(init + [DigitChar(d)]) == 10 * Value(init) + d
  {
    assert (init + [DigitChar(d)])[..|init|] == init;
  }

  lemma ValueOfThree(a: nat, b: nat, c: nat)
    requires a < 10 && b < 10 && c < 10
    ensures Value([DigitChar(a)] + [DigitChar(b)] + [DigitChar(c)]) == 100 * a + 10 * b + c
  {
    DigitText(a);
    ValueSnoc([DigitChar(a)], b);
    ValueSnoc([DigitChar(a)] + [DigitChar(b)], c);
  }
}
