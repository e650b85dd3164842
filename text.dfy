/**
 * Reading a BitSet from a string literal and writing it back in a radix.
 * A literal is hexadecimal after a "0x" prefix and binary otherwise; a
 * non-negative value is written as the digits of its number, a negative
 * value in binary as "...1111" followed by its bits from the highest clear
 * bit down to bit 0.
 */
module Text {
  import opened Wrappers
  import opened Words
  import opened Radix
  import opened BitValue

  /** The one failure of parsing: a character that is not a digit of the radix. */
  datatype Error = InvalidFormat

  predicate ValidDigit(c: char, radix: nat)
  {
    CharDigit(c).Some? && CharDigit(c).value < radix
  }

  /** The digit values of s, if every character is a digit of the radix. */
  function ParseDigits(s: string, radix: nat): (r: Option<seq<nat>>)
    ensures r.Some? <==> forall k | 0 <= k < |s| :: ValidDigit(s[k], radix)
    ensures r.Some? ==> (|r.value| == |s| &&
      forall k | 0 <= k < |s| :: CharDigit(s[k]) == Some(r.value[k]) && r.value[k] < radix)
  {
    if |s| == 0 then Some([])
    else if !ValidDigit(s[0], radix) then None
    else
      match ParseDigits(s[1..], radix)
      case None => None
      case Some(rest) => Some([CharDigit(s[0]).value] + rest)
  }

  /** The radix a literal is written in: 16 after "0x", 2 otherwise. */
  function LiteralRadix(s: string): nat
  {
    if |s| >= 2 && s[0] == '0' && s[1] == 'x' then 16 else 2
  }

  /** The digits of a literal, without its radix prefix. */
  function LiteralDigits(s: string): string
  {
    if LiteralRadix(s) == 16 then s[2..] else s
  }

  /**
   * The string form of `new BitSet(s)`: the non-negative number the digits
   * denote. It fails exactly when some character is not a digit of the
   * literal's radix; no digits at all ("" or "0x") denote zero.
   */
  function Parse(s: string): (r: Result<Bits, Error>)
    ensures r.Success? <==>
      forall k | 0 <= k < |LiteralDigits(s)| :: ValidDigit(LiteralDigits(s)[k], LiteralRadix(s))
    ensures r.Success? ==> (!r.value.sign &&
      WordsToNat(r.value.data) == FromDigits(ParseDigits(LiteralDigits(s), LiteralRadix(s)).value, LiteralRadix(s)))
  {
    var radix, digits := LiteralRadix(s), LiteralDigits(s);
    match ParseDigits(digits, radix)
    case None => Failure(InvalidFormat)
    case Some(ds) =>
      WordsOfNatRoundTrip(FromDigits(ds, radix));
      Success(Bits(NatToWords(FromDigits(ds, radix)), false))
  }

  /** A literal without digits, "" or "0x", reads as zero: non-negative with no bit set. */
  lemma EmptyLiteral(s: string)
    requires s == "" || s == "0x"
    ensures Parse(s).Success? && !Parse(s).value.sign
    ensures forall i: nat :: !Get(Parse(s).value, i)
  {
    assert LiteralDigits(s) == "";
    var b := Parse(s).value;
    forall i: nat
      ensures !Get(b, i)
    {
      ValueBits(b, i);
      assert WordsToNat(b.data) == 0;
      BitOfAbove(0, 0, i);
    }
  }

  /** A binary literal: one or more characters, each '0' or '1'. */
  predicate IsBinaryLiteral(s: string)
  {
    |s| >= 1 && forall k | 0 <= k < |s| :: s[k] == '0' || s[k] == '1'
  }

  /**
   * new BitSet(s) on a binary literal: bit i is the i-th character from the
   * right, and every bit past the literal is 0.
   */
  lemma ParseBinaryLiteral(s: string)
    requires IsBinaryLiteral(s)
    ensures Parse(s).Success?
    ensures forall i: nat :: Get(Parse(s).value, i) == (i < |s| && s[|s| - 1 - i] == '1')
  {
    assert LiteralRadix(s) == 2;
    var ds := ParseDigits(s, 2).value;
    forall k | 0 <= k < |s|
      ensures ds[k] == (if s[k] == '1' then 1 else 0)
    {
      assert CharDigit(s[k]) == Some(ds[k]);
    }
    var b := Parse(s).value;
    forall i: nat
      ensures Get(b, i) == (i < |s| && s[|s| - 1 - i] == '1')
    {
      ValueBits(b, i);
      FromBinaryDigitsBits(ds, i);
    }
  }

  /**
   * new BitSet("0x" + d): bit 4n + m is bit m of the digit n places from the
   * right, and 0 past the literal.
   */
  lemma HexLiteralBit(d: string, n: nat, m: nat)
    requires |d| >= 1 && forall k | 0 <= k < |d| :: ValidDigit(d[k], 16)
    requires m < 4
    ensures Parse("0x" + d).Success?
    ensures Get(Parse("0x" + d).value, 4 * n + m) == (n < |d| && BitOf(CharDigit(d[|d| - 1 - n]).value, m))
  {
    var s := "0x" + d;
    assert LiteralRadix(s) == 16 && LiteralDigits(s) == d;
    var ds := ParseDigits(d, 16).value;
    var b := Parse(s).value;
    var i := 4 * n + m;
    ValueBits(b, i);
    FromHexDigitsBits(ds, i);
    assert i / 4 == n && i % 4 == m;
    if n < |d| {
      assert CharDigit(d[|d| - 1 - n]) == Some(ds[|ds| - 1 - n]);
    }
  }

  /** The characters of a digit sequence. */
  function DigitString(ds: seq<nat>, radix: nat): (s: string)
    requires forall k | 0 <= k < |ds| :: ds[k] < radix
    requires IsRadix(radix)
    ensures |s| == |ds| && forall k | 0 <= k < |ds| :: s[k] == DigitChar(ds[k])
  {
    seq(|ds|, k requires 0 <= k < |ds| => DigitChar(ds[k]))
  }

  /** Bits n-1 down to 0 of b as '1' and '0' characters. */
  function BitChars(b: Bits, n: nat): (s: string)
    ensures |s| == n && forall i: nat | i < n :: s[n - 1 - i] == if Get(b, i) then '1' else '0'
  {
    if n == 0 then "" else [if Get(b, n - 1) then '1' else '0'] + BitChars(b, n - 1)
  }

  /** The marker written before the bits of a negative value. */
  const NegativePrefix: string := "...1111"

  /**
   * toString(radix). A negative value is written only in binary; in any other
   * radix the result is None.
   */
  function ToString(b: Bits, radix: nat): (r: Option<string>)
    requires IsRadix(radix)
    ensures r.Some? <==> !b.sign || radix == 2
  {
    if !b.sign then
      Some(DigitString(ToDigits(WordsToNat(b.data), radix), radix))
    else if radix == 2 then
      match HighestBelow(b, Extent(b), false)
      case Finite(h) => Some(NegativePrefix + BitChars(b, h + 1))
      case Infinity => Some(NegativePrefix)
    else
      None
  }

  /** A non-negative value with no bit set prints "0" in every radix. */
  lemma EmptyString(b: Bits, radix: nat)
    requires IsRadix(radix) && !b.sign && forall i: nat :: !Get(b, i)
    ensures ToString(b, radix) == Some("0")
  {
    IsEmptyIsNoBits(b);
    WordsToNatZero(b.data);
    assert ToDigits(0, radix) == [0];
    assert DigitString([0], radix) == [DigitChar(0)];
  }

  /** Non-negative values with the same bits print the same, however many words they store. */
  lemma SameBitsSameString(a: Bits, b: Bits, radix: nat)
    requires IsRadix(radix) && !a.sign && !b.sign && SameBits(a, b)
    ensures ToString(a, radix) == ToString(b, radix)
  {
    forall k: nat
      ensures BitOf(WordsToNat(a.data), k) == BitOf(WordsToNat(b.data), k)
    {
      ValueBits(a, k);
      ValueBits(b, k);
    }
    NatExtensionality(WordsToNat(a.data), WordsToNat(b.data));
  }

  /** The bits of a non-negative value are the bits of the number its words hold. */
  lemma ValueBits(b: Bits, i: nat)
    requires !b.sign
    ensures Get(b, i) == BitOf(WordsToNat(b.data), i)
  {
    BitOfWordsToNat(b.data, i);
  }

  /** s holds bits |s|-1 down to 0 of b, as '1' and '0' characters. */
  ghost predicate ListsBits(b: Bits, s: string)
  {
    forall i: nat | i < |s| :: s[|s| - 1 - i] == if Get(b, i) then '1' else '0'
  }

  /**
   * s is the binary writing of a non-negative b: it lists b's bits from the
   * highest set one down to bit 0 ("0" for zero), with no leading zero, and
   * no bit of b is set beyond its length.
   */
  ghost predicate IsBinaryOf(b: Bits, s: string)
  {
    |s| >= 1 && (|s| > 1 ==> s[0] == '1') && ListsBits(b, s) &&
    forall i: nat | i >= |s| :: !Get(b, i)
  }

  /**
   * t is what follows "...1111" for a negative b: bits |t|-1 down to 0, every
   * bit from |t| on set, and a non-empty t starts with the highest clear bit.
   */
  ghost predicate IsNegativeTailOf(b: Bits, t: string)
  {
    (|t| > 0 ==> t[0] == '0') && ListsBits(b, t) &&
    forall i: nat | i >= |t| :: Get(b, i)
  }

  /** toString(2) of a non-negative value is its binary writing. */
  lemma BinaryStringIsBits(b: Bits)
    requires !b.sign
    ensures ToString(b, 2).Some? && IsBinaryOf(b, ToString(b, 2).value)
  {
    var n := WordsToNat(b.data);
    var ds := ToDigits(n, 2);
    var s := ToString(b, 2).value;
    BinaryDigitsAreBits(n);
    forall i: nat
      ensures Get(b, i) == BitOf(n, i)
    {
      ValueBits(b, i);
    }
    assert |s| == |ds|;
    forall i: nat | i < |s|
      ensures s[|s| - 1 - i] == if Get(b, i) then '1' else '0'
    {
      assert s[|s| - 1 - i] == DigitChar(ds[|ds| - 1 - i]);
    }
  }

  /** Two strings that list the same bits and have the same length are equal. */
  lemma ListsBitsUnique(b: Bits, s: string, u: string)
    requires ListsBits(b, s) && ListsBits(b, u) && |s| == |u|
    ensures s == u
  {
    forall k | 0 <= k < |s|
      ensures s[k] == u[k]
    {
      var i: nat := |s| - 1 - k;
      assert s[|s| - 1 - i] == (if Get(b, i) then '1' else '0') == u[|u| - 1 - i];
    }
  }

  /** A value has one binary writing. */
  lemma BinaryOfUnique(b: Bits, s: string, u: string)
    requires IsBinaryOf(b, s) && IsBinaryOf(b, u)
    ensures s == u
  {
    assert |s| > 1 ==> Get(b, |s| - 1);
    assert |u| > 1 ==> Get(b, |u| - 1);
    assert |s| == |u|;
    ListsBitsUnique(b, s, u);
  }

  /** toString(2) of a non-negative value is s exactly when s is its binary writing. */
  lemma BinaryStringIff(b: Bits, s: string)
    requires !b.sign
    ensures ToString(b, 2) == Some(s) <==> IsBinaryOf(b, s)
  {
    BinaryStringIsBits(b);
    if IsBinaryOf(b, s) {
      BinaryOfUnique(b, s, ToString(b, 2).value);
    }
  }

  /** toString(2) of a negative value is "...1111" and then its negative tail. */
  lemma NegativeBinaryString(b: Bits)
    requires b.sign
    ensures ToString(b, 2).Some?
    ensures var s := ToString(b, 2).value;
      |s| >= |NegativePrefix| && s[..|NegativePrefix|] == NegativePrefix &&
      IsNegativeTailOf(b, s[|NegativePrefix|..])
  {
    var s := ToString(b, 2).value;
    var h := HighestBelow(b, Extent(b), false);
    var t := s[|NegativePrefix|..];
    if h.Finite? {
      assert t == BitChars(b, h.n + 1);
      forall i: nat | i >= |t|
        ensures Get(b, i)
      {
        if i >= Extent(b) {
          assert Get(b, i) == b.sign;
        }
      }
    } else {
      assert t == "";
      forall i: nat
        ensures Get(b, i)
      {
        if i >= Extent(b) {
          assert Get(b, i) == b.sign;
        }
      }
    }
  }

  /** A negative value has one tail. */
  lemma NegativeTailUnique(b: Bits, t: string, w: string)
    requires IsNegativeTailOf(b, t) && IsNegativeTailOf(b, w)
    ensures t == w
  {
    assert |t| > 0 ==> !Get(b, |t| - 1);
    assert |w| > 0 ==> !Get(b, |w| - 1);
    assert |t| == |w|;
    ListsBitsUnique(b, t, w);
  }

  /** toString(2) of a negative value is "...1111" + t exactly when t is its negative tail. */
  lemma NegativeStringIff(b: Bits, t: string)
    requires b.sign
    ensures ToString(b, 2) == Some(NegativePrefix + t) <==> IsNegativeTailOf(b, t)
  {
    NegativeBinaryString(b);
    var s := ToString(b, 2).value;
    var n := |NegativePrefix|;
    assert s == s[..n] + s[n..];
    if IsNegativeTailOf(b, t) {
      NegativeTailUnique(b, t, s[n..]);
    }
    if s == NegativePrefix + t {
      assert s[n..] == t;
    }
  }

  /** The lower-case form of a string. */
  function LowerString(s: string): (r: string)
    ensures |r| == |s| && forall k | 0 <= k < |s| :: r[k] == Lower(s[k])
  {
    seq(|s|, k requires 0 <= k < |s| => Lower(s[k]))
  }

  /** A digit string without leading zeros in the radix. */
  predicate CanonicalLiteral(d: string, radix: nat)
  {
    |d| >= 1 && (forall k | 0 <= k < |d| :: ValidDigit(d[k], radix)) && (|d| > 1 ==> d[0] != '0')
  }

  /** Parsing canonical digits and writing them again in the same radix gives them in lower case. */
  lemma FormatParsedDigits(d: string, radix: nat)
    requires IsRadix(radix) && CanonicalLiteral(d, radix)
    ensures var ds := ParseDigits(d, radix).value;
      ToString(Bits(NatToWords(FromDigits(ds, radix)), false), radix) == Some(LowerString(d))
  {
    var ds := ParseDigits(d, radix).value;
    assert |ds| > 1 ==> ds[0] != 0 by {
      if |ds| > 1 {
        assert CharDigit(d[0]) == Some(ds[0]);
      }
    }
    assert Canonical(ds, radix);
    var n := FromDigits(ds, radix);
    WordsOfNatRoundTrip(n);
    ToFromDigits(ds, radix);
    var b := Bits(NatToWords(n), false);
    assert ToDigits(WordsToNat(b.data), radix) == ds;
    var s := DigitString(ds, radix);
    assert ToString(b, radix) == Some(s);
    forall k | 0 <= k < |d|
      ensures s[k] == LowerString(d)[k]
    {
      DigitCharRoundTrip(ds[k], d[k]);
    }
    assert s == LowerString(d);
  }

  /** A hex literal of any length, written back with toString(16), gives its digits in lower case. */
  lemma HexRoundTrip(d: string)
    requires CanonicalLiteral(d, 16)
    ensures Parse("0x" + d).Success?
    ensures ToString(Parse("0x" + d).value, 16) == Some(LowerString(d))
  {
    var s := "0x" + d;
    assert LiteralRadix(s) == 16 && LiteralDigits(s) == d;
    FormatParsedDigits(d, 16);
  }

  /** A binary literal, written back with toString(2), gives the same string. */
  lemma BinaryRoundTrip(d: string)
    requires CanonicalLiteral(d, 2)
    ensures Parse(d).Success?
    ensures ToString(Parse(d).value, 2) == Some(d)
  {
    assert |d| >= 2 ==> d[1] != 'x';
    assert LiteralRadix(d) == 2 && LiteralDigits(d) == d;
    FormatParsedDigits(d, 2);
    assert LowerString(d) == d;
  }

  /** new BitSet("0x" + d) has no bit set at or above 4 * |d|, one nibble per digit. */
  lemma HexLiteralWidth(d: string)
    requires Parse("0x" + d).Success?
    ensures forall i: nat | i >= 4 * |d| :: !Get(Parse("0x" + d).value, i)
  {
    var s := "0x" + d;
    assert LiteralRadix(s) == 16 && LiteralDigits(s) == d;
    var b := Parse(s).value;
    var ds := ParseDigits(d, 16).value;
    HexDigitsBound(ds);
    forall i: nat | i >= 4 * |d|
      ensures !Get(b, i)
    {
      ValueBits(b, i);
      BitOfAbove(WordsToNat(b.data), 4 * |d|, i);
    }
  }

  /** Reading back the characters of a digit sequence gives the same digits. */
  lemma DigitStringParses(ds: seq<nat>, radix: nat)
    requires IsRadix(radix) && forall k | 0 <= k < |ds| :: ds[k] < radix
    ensures ParseDigits(DigitString(ds, radix), radix) == Some(ds)
  {
    var d := DigitString(ds, radix);
    forall k | 0 <= k < |d|
      ensures ValidDigit(d[k], radix) && CharDigit(d[k]) == Some(ds[k])
    {
      DigitCharRoundTrip(ds[k], d[k]);
    }
    var pd := ParseDigits(d, radix);
    assert |pd.value| == |ds|;
    forall k | 0 <= k < |ds|
      ensures pd.value[k] == ds[k]
    {
      assert CharDigit(d[k]) == Some(pd.value[k]);
    }
    assert pd.value == ds;
  }

  /** Digits of radix 2, or of radix 16 behind "0x", are read back in that radix. */
  lemma PrefixedLiteral(d: string, radix: nat)
    requires radix == 2 || radix == 16
    requires forall k | 0 <= k < |d| :: ValidDigit(d[k], radix)
    ensures var lit := (if radix == 16 then "0x" else "") + d;
      LiteralRadix(lit) == radix && LiteralDigits(lit) == d
  {
    if radix == 2 && |d| >= 2 {
      assert ValidDigit(d[1], 2);
    }
  }

  /** Writing a non-negative value in hex or binary and parsing the result gives the same bits. */
  lemma ParseFormatRoundTrip(b: Bits, radix: nat)
    requires !b.sign && (radix == 2 || radix == 16)
    ensures var lit := (if radix == 16 then "0x" else "") + ToString(b, radix).value;
      Parse(lit).Success? && SameBits(Parse(lit).value, b)
  {
    var n := WordsToNat(b.data);
    var ds := ToDigits(n, radix);
    var d := ToString(b, radix).value;
    assert d == DigitString(ds, radix);
    DigitStringParses(ds, radix);
    var lit := (if radix == 16 then "0x" else "") + d;
    PrefixedLiteral(d, radix);
    FromToDigits(n, radix);
    var r := Parse(lit).value;
    assert WordsToNat(r.data) == n;
    forall i: nat
      ensures Get(r, i) == Get(b, i)
    {
      ValueBits(b, i);
      ValueBits(r, i);
    }
  }
}
