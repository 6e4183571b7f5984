/** The netmask conversion (src/plugins/sys_util.h): the loop computes a bit length, not a prefix length. */
module Netmask {
  import opened Wrappers
  import opened Prefix
  import Decimal

  function Pow2(e: nat): (p: nat)
    ensures p > 0
  {
    if e == 0 then 1 else 2 * Pow2(e - 1)
  }

  function BitLength(n: nat): nat {
    if n == 0 then 0 else 1 + BitLength(n / 2)
  }

  /** The bit length is the i with 2^(i-1) <= n < 2^i, and 0 for 0. */
  lemma {:induction false} BitLengthBounds(n: nat)
    ensures n < Pow2(BitLength(n))
    ensures n != 0 ==> BitLength(n) > 0 && Pow2(BitLength(n) - 1) <= n
  {
    if n != 0 {
      BitLengthBounds(n / 2);
    }
  }

  /** The bytes inet_pton stores, read back as one integer: the first octet is the lowest. */
  function Load(octets: seq<Octet>): nat {
    if octets == [] then 0 else octets[0] + 256 * Load(octets[1..])
  }

  function Octets(q: Quad): seq<Octet> { [q.a, q.b, q.c, q.d] }

  function LengthOfMask(q: Quad): nat { BitLength(Load(Octets(q))) }

  /** netmask_to_plen on an IPv4 netmask. */
  method NetmaskToPlen(q: Quad) returns (i: nat)
    ensures i == LengthOfMask(q)
    ensures var n := Load(Octets(q)); n < Pow2(i) && (n == 0 ==> i == 0) && (n != 0 ==> i > 0 && Pow2(i - 1) <= n)
  {
    BitLengthBounds(Load(Octets(q)));
    var n := Load(Octets(q));
    i := 0;
    while n > 0
      invariant i + BitLength(n) == LengthOfMask(q)
    {
      n := n / 2;
      i := i + 1;
    }
  }

  // ---------- Contiguous masks ----------

  /** The octet of a mask that has its first b bits set. */
  function MaskOctet(b: nat): (o: Octet)
    requires b <= 8
    ensures b == 0 <==> o == 0
    ensures b > 0 ==> o >= 128
  {
    [0, 128, 192, 224, 240, 248, 252, 254, 255][b]
  }

  /** The contiguous mask of p one bits over a number of octets, in the order it is written. */
  function ContiguousMask(p: nat, octets: nat): (m: seq<Octet>)
    requires p <= 8 * octets
    ensures |m| == octets
  {
    if octets == 0 then []
    else if p <= 8 then [MaskOctet(p)] + ContiguousMask(0, octets - 1)
    else [MaskOctet(8)] + ContiguousMask(p - 8, octets - 1)
  }

  function RoundUpToOctet(p: nat): nat { (p + 7) / 8 * 8 }

  /** Low bits below the k-th do not change the length: it is k more than the length of the rest. */
  lemma {:induction false} BitLengthAbove(low: nat, k: nat, n: nat)
    requires low < Pow2(k) && n > 0
    ensures BitLength(low + Pow2(k) * n) == k + BitLength(n)
  {
    if k > 0 {
      var half := Pow2(k - 1) * n;
      assert Pow2(k) * n == 2 * half;
      assert half > 0 by { MulPositive(Pow2(k - 1), n); }
      assert (low + 2 * half) / 2 == low / 2 + half;
      BitLengthAbove(low / 2, k - 1, n);
    }
  }

  lemma MulPositive(x: nat, y: nat)
    requires x > 0 && y > 0
    ensures x * y > 0
  {
  }

  lemma Pow2Values()
    ensures Pow2(7) == 128 && Pow2(8) == 256
  {
    assert Pow2(4) == 16;
  }

  /** An octet below a non-zero number adds eight bits. */
  lemma OctetBelow(low: Octet, n: nat)
    requires n > 0
    ensures BitLength(low + 256 * n) == 8 + BitLength(n)
  {
    Pow2Values();
    BitLengthAbove(low, 8, n);
  }

  lemma HighOctet(o: Octet)
    requires o >= 128
    ensures BitLength(o) == 8
  {
    Pow2Values();
    BitLengthAbove(o - 128, 7, 1);
    assert BitLength(1) == 1 + BitLength(0);
  }

  lemma RoundUpStep(p: nat)
    ensures p <= 8 ==> RoundUpToOctet(p) == if p == 0 then 0 else 8
    ensures p > 8 ==> RoundUpToOctet(p) == 8 + RoundUpToOctet(p - 8)
  {
    assert p > 8 ==> (p + 7) / 8 == (p - 8 + 7) / 8 + 1;
  }

  lemma MaskStep(o: Octet, rest: seq<Octet>)
    requires o >= 128
    ensures BitLength(Load([o] + rest)) == 8 + BitLength(Load(rest)) && Load([o] + rest) > 0
  {
    assert ([o] + rest)[1..] == rest;
    if Load(rest) == 0 {
      HighOctet(o);
    } else {
      OctetBelow(o, Load(rest));
    }
  }

  lemma {:induction false} ZeroMask(octets: nat)
    ensures Load(ContiguousMask(0, octets)) == 0
  {
    if octets > 0 {
      ZeroMask(octets - 1);
      assert ContiguousMask(0, octets)[1..] == ContiguousMask(0, octets - 1);
    }
  }

  /** For a contiguous mask over any number of octets the result is the length rounded up to whole octets. */
  lemma {:induction false} MaskLengthRoundsUp(p: nat, octets: nat)
    requires p <= 8 * octets
    ensures BitLength(Load(ContiguousMask(p, octets))) == RoundUpToOctet(p)
    decreases octets
  {
    RoundUpStep(p);
    if p == 0 {
      ZeroMask(octets);
    } else if p <= 8 {
      ZeroMask(octets - 1);
      MaskStep(MaskOctet(p), ContiguousMask(0, octets - 1));
    } else {
      MaskLengthRoundsUp(p - 8, octets - 1);
      MaskStep(MaskOctet(8), ContiguousMask(p - 8, octets - 1));
    }
  }

  function Mask(p: nat): Quad
    requires p <= 32
  {
    var m := ContiguousMask(p, 4);
    Quad(m[0], m[1], m[2], m[3])
  }

  /**
   * The conversion promises the prefix length of a netmask; on the 33 IPv4 netmasks it delivers it exactly
   * at the octet boundaries, and rounds up to the next one everywhere else.
   */
  lemma {:induction false} PrefixLengthExactAtOctets(p: nat)
    requires p <= 32
    ensures LengthOfMask(Mask(p)) == RoundUpToOctet(p)
    ensures LengthOfMask(Mask(p)) == p <==> p % 8 == 0
  {
    MaskLengthRoundsUp(p, 4);
    assert Octets(Mask(p)) == ContiguousMask(p, 4);
  }

  /** The length a netmask leaf's text stands for; None where from_string throws. */
  function LengthOfMaskText(s: string): Option<nat> {
    match ParseQuad(s)
    case Some(q) => Some(LengthOfMask(q))
    case None => None
  }

  // ---------- The prefix length a netmask stands for ----------

  /** How many leading bits are set in an octet of a contiguous mask. */
  function OctetBits(o: Octet): nat {
    match o
    case 128 => 1
    case 192 => 2
    case 224 => 3
    case 240 => 4
    case 248 => 5
    case 252 => 6
    case 254 => 7
    case 255 => 8
    case _ => 0
  }

  function SetBits(octets: seq<Octet>): nat {
    if octets == [] then 0 else OctetBits(octets[0]) + SetBits(octets[1..])
  }

  lemma {:induction false} SetBitsOfMask(p: nat, octets: nat)
    requires p <= 8 * octets
    ensures SetBits(ContiguousMask(p, octets)) == p
    decreases octets
  {
    if octets > 0 {
      var first := if p <= 8 then p else 8;
      var m := ContiguousMask(p, octets);
      assert m[0] == MaskOctet(first) && OctetBits(MaskOctet(first)) == first;
      assert m[1..] == ContiguousMask(p - first, octets - 1);
      SetBitsOfMask(p - first, octets - 1);
    }
  }

  /** The prefix length of a netmask: the p of which it is the mask; None for a mask with holes. */
  function PrefixOfMask(q: Quad): (r: Option<nat>) {
    var p := SetBits(Octets(q));
    if p <= 32 && Mask(p) == q then Some(p) else None
  }

  /** A netmask has a prefix length exactly when it is contiguous, and then it is the number of its bits. */
  lemma PrefixOfMaskExact(q: Quad, p: nat)
    ensures PrefixOfMask(q) == Some(p) <==> p <= 32 && q == Mask(p)
  {
    if p <= 32 && q == Mask(p) {
      SetBitsOfMask(p, 4);
      assert Octets(q) == ContiguousMask(p, 4);
    }
  }

  /** The prefix length a netmask leaf's text asks for. */
  function PrefixOfMaskText(s: string): Option<nat> {
    match ParseQuad(s)
    case Some(q) => PrefixOfMask(q)
    case None => None
  }

  /** The conversion yields the prefix length of a netmask's text exactly when it is a multiple of 8. */
  lemma TextLengthExactAtOctets(s: string)
    ensures PrefixOfMaskText(s).Some? ==> LengthOfMaskText(s) == Some(RoundUpToOctet(PrefixOfMaskText(s).value))
    ensures PrefixOfMaskText(s).Some? ==>
              (LengthOfMaskText(s) == PrefixOfMaskText(s) <==> PrefixOfMaskText(s).value % 8 == 0)
  {
    if PrefixOfMaskText(s).Some? {
      var q, p := ParseQuad(s).value, PrefixOfMaskText(s).value;
      PrefixOfMaskExact(q, p);
      PrefixLengthExactAtOctets(p);
    }
  }

  // ---------- Any netmask, and netmasks as texts ----------

  /** Whatever the mask, only its last octet that is not zero counts: its bit length and eight for each before it. */
  lemma {:induction false} AnyMaskLength(q: Quad)
    ensures LengthOfMask(q)
         == if q.d != 0 then 24 + BitLength(q.d)
            else if q.c != 0 then 16 + BitLength(q.c)
            else if q.b != 0 then 8 + BitLength(q.b)
            else BitLength(q.a)
  {
    var l3 := Load([q.d]);
    var l2 := Load([q.c, q.d]);
    var l1 := Load([q.b, q.c, q.d]);
    assert [q.d][1..] == [] && Load([]) == 0 && l3 == q.d;
    assert [q.c, q.d][1..] == [q.d] && l2 == q.c + 256 * l3;
    assert [q.b, q.c, q.d][1..] == [q.c, q.d] && l1 == q.b + 256 * l2;
    assert Octets(q)[1..] == [q.b, q.c, q.d] && Load(Octets(q)) == q.a + 256 * l1;
    if l3 > 0 {
      OctetBelow(q.c, l3);
    }
    if l2 > 0 {
      OctetBelow(q.b, l2);
    }
    if l1 > 0 {
      OctetBelow(q.a, l1);
    }
  }

  lemma {:induction false} OctetText(a: nat, b: nat, c: nat, text: string)
    requires 0 < a < 10 && b < 10 && c < 10 && 100 * a + 10 * b + c < 256
    requires text == ["0123456789"[a], "0123456789"[b], "0123456789"[c]]
    ensures IsOctet(text) && Decimal.Value(text) == 100 * a + 10 * b + c
  {
    Decimal.DigitText(a);
    Decimal.DigitText(b);
    Decimal.DigitText(c);
    Decimal.ValueOfThree(a, b, c);
    assert text == [Decimal.DigitChar(a)] + [Decimal.DigitChar(b)] + [Decimal.DigitChar(c)];
  }

  lemma OctetTexts()
    ensures IsOctet("255") && Decimal.Value("255") == 255
    ensures IsOctet("240") && Decimal.Value("240") == 240
    ensures IsOctet("0") && Decimal.Value("0") == 0
  {
    OctetText(2, 5, 5, "255");
    OctetText(2, 4, 0, "240");
    Decimal.DigitText(0);
  }

  lemma {:induction false} TextOfMask(t: string, a: string, b: string, c: string, d: string, p: nat)
    requires IsOctet(a) && IsOctet(b) && IsOctet(c) && IsOctet(d) && p <= 32
    requires t == a + "." + b + "." + c + "." + d
    requires Octets(Quad(Decimal.Value(a), Decimal.Value(b), Decimal.Value(c), Decimal.Value(d)))
          == ContiguousMask(p, 4)
    ensures LengthOfMaskText(t) == Some(RoundUpToOctet(p)) && PrefixOfMaskText(t) == Some(p)
  {
    OctetsInOrder(a, b, c, d);
    MaskIs(Quad(Decimal.Value(a), Decimal.Value(b), Decimal.Value(c), Decimal.Value(d)), p);
  }

  lemma {:induction false} MaskIs(q: Quad, p: nat)
    requires p <= 32 && Octets(q) == ContiguousMask(p, 4)
    ensures LengthOfMask(q) == RoundUpToOctet(p) && PrefixOfMask(q) == Some(p)
  {
    var m := ContiguousMask(p, 4);
    assert q == Quad(Octets(q)[0], Octets(q)[1], Octets(q)[2], Octets(q)[3]) == Mask(p);
    MaskLengthRoundsUp(p, 4);
    PrefixOfMaskExact(q, p);
  }

  lemma MaskValues()
    ensures ContiguousMask(8, 4) == [255, 0, 0, 0]
    ensures ContiguousMask(16, 4) == [255, 255, 0, 0]
    ensures ContiguousMask(20, 4) == [255, 255, 240, 0]
    ensures ContiguousMask(24, 4) == [255, 255, 255, 0]
  {
    assert ContiguousMask(0, 2) == [0, 0] && ContiguousMask(0, 3) == [0, 0, 0];
    assert ContiguousMask(8, 2) == [255, 0] && ContiguousMask(8, 3) == [255, 0, 0];
    assert ContiguousMask(4, 2) == [240, 0] && ContiguousMask(12, 3) == [255, 240, 0];
    assert ContiguousMask(16, 2) == [255, 255] && ContiguousMask(16, 3) == [255, 255, 0];
  }

  /** The common netmasks as they are written. */
  lemma WrittenMask8(t: string)
    requires t == "255.0.0.0"
    ensures LengthOfMaskText(t) == Some(8) && PrefixOfMaskText(t) == Some(8)
  {
    OctetTexts();
    MaskValues();
    TextOfMask(t, "255", "0", "0", "0", 8);
  }

  lemma WrittenMask16(t: string)
    requires t == "255.255.0.0"
    ensures LengthOfMaskText(t) == Some(16) && PrefixOfMaskText(t) == Some(16)
  {
    OctetTexts();
    MaskValues();
    TextOfMask(t, "255", "255", "0", "0", 16);
  }

  lemma WrittenMask24(t: string)
    requires t == "255.255.255.0"
    ensures LengthOfMaskText(t) == Some(24) && PrefixOfMaskText(t) == Some(24)
  {
    OctetTexts();
    MaskValues();
    TextOfMask(t, "255", "255", "255", "0", 24);
  }

  /** Off the octet boundary: asked for /20, taken for /24. */
  lemma WrittenMask20(t: string)
    requires t == "255.255.240.0"
    ensures LengthOfMaskText(t) == Some(24) && PrefixOfMaskText(t) == Some(20)
  {
    OctetTexts();
    MaskValues();
    TextOfMask(t, "255", "255", "240", "0", 20);
  }
}
