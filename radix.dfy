/**
 * Positional notation: digit characters, digit sequences in a radix, and the
 * little-endian list of 32-bit words that holds a non-negative number.
 */
module Radix {
  import opened Wrappers
  import opened Words

  /** A radix the source accepts for toString and parsing. */
  predicate IsRadix(radix: nat)
  {
    2 <= radix <= 36
  }

  /** The lower-case character of a digit value: 0-9 then a-z. */
  function DigitChar(d: nat): char
    requires d < 36
  {
    if d < 10 then (48 + d) as char else (97 + d - 10) as char
  }

  /** The value of a digit character, upper or lower case; None for any other character. */
  function CharDigit(c: char): Option<nat>
  {
    if '0' <= c <= '9' then Some(c as nat - 48)
    else if 'a' <= c <= 'z' then Some(c as nat - 97 + 10)
    else if 'A' <= c <= 'Z' then Some(c as nat - 65 + 10)
    else None
  }

  /** The lower-case form of a character (letters only change). */
  function Lower(c: char): char
  {
    if 'A' <= c <= 'Z' then (c as nat + 32) as char else c
  }

  /** Reading a digit back gives its value; writing a read digit gives its lower-case form. */
  lemma DigitCharRoundTrip(d: nat, c: char)
    requires d < 36
    ensures CharDigit(DigitChar(d)) == Some(d)
    ensures CharDigit(c).Some? && CharDigit(c).value < 36 ==> DigitChar(CharDigit(c).value) == Lower(c)
  {
  }

  /** Digits most significant first, each below the radix, without leading zeros. */
  predicate Canonical(ds: seq<nat>, radix: nat)
  {
    |ds| >= 1 && (forall k | 0 <= k < |ds| :: ds[k] < radix) && (|ds| > 1 ==> ds[0] != 0)
  }

  /** The number written by the digits ds (most significant first). */
  function FromDigits(ds: seq<nat>, radix: nat): nat
  {
    if |ds| == 0 then 0 else FromDigits(ds[..|ds| - 1], radix) * radix + ds[|ds| - 1]
  }

  /** The digits of n in the radix, most significant first, "0" for zero. */
  function ToDigits(n: nat, radix: nat): (ds: seq<nat>)
    requires radix >= 2
    ensures Canonical(ds, radix)
  {
    if n < radix then [n]
    else
      DivShrinks(n, radix);
      ToDigits(n / radix, radix) + [n % radix]
  }

  lemma {:induction false} MulAtLeast(k: nat, radix: nat)
    requires k >= 1
    ensures k * radix >= radix
  {
    if k > 1 {
      MulAtLeast(k - 1, radix);
      assert k * radix == (k - 1) * radix + radix;
    }
  }

  /** Appending digit d to x in the radix is undone by / and %. */
  lemma DivModOfDigit(x: nat, d: nat, radix: nat)
    requires d < radix
    ensures (x * radix + d) / radix == x && (x * radix + d) % radix == d
  {
    var n := x * radix + d;
    var q, r := n / radix, n % radix;
    assert q * radix + r == x * radix + d;
    if q > x {
      assert (q - x) * radix == q * radix - x * radix;
      MulAtLeast(q - x, radix);
      assert false;
    } else if q < x {
      assert (x - q) * radix == x * radix - q * radix;
      MulAtLeast(x - q, radix);
      assert false;
    }
  }

  /** Dropping the last digit of a number with two or more digits shrinks it. */
  lemma DivShrinks(n: nat, radix: nat)
    requires radix >= 2 && n >= radix
    ensures 1 <= n / radix < n && n % radix < radix
    ensures n == (n / radix) * radix + n % radix
  {
    var q := n / radix;
    assert n == q * radix + n % radix;
    MulMonotone(q, 2, radix);
  }

  lemma {:induction false} MulMonotone(k: nat, a: nat, b: nat)
    requires a <= b
    ensures k * a <= k * b
  {
    if k > 0 {
      MulMonotone(k - 1, a, b);
      assert k * a == (k - 1) * a + a && k * b == (k - 1) * b + b;
    }
  }

  /** Reading the written digits of n gives n back. */
  lemma {:induction false} FromToDigits(n: nat, radix: nat)
    requires radix >= 2
    ensures FromDigits(ToDigits(n, radix), radix) == n
  {
    if n >= radix {
      DivShrinks(n, radix);
      var q, d := n / radix, n % radix;
      var ds, p := ToDigits(n, radix), ToDigits(q, radix);
      assert ds == p + [d];
      assert ds[..|ds| - 1] == p;
      FromToDigits(q, radix);
      assert FromDigits(ds, radix) == FromDigits(p, radix) * radix + d;
    }
  }

  /** A number written without leading zeros has a non-zero value. */
  lemma {:induction false} LeadingDigitPositive(ds: seq<nat>, radix: nat)
    requires |ds| >= 1 && ds[0] != 0 && radix >= 1
    ensures FromDigits(ds, radix) >= 1
  {
    if |ds| > 1 {
      var p := ds[..|ds| - 1];
      LeadingDigitPositive(p, radix);
      MulAtLeast(FromDigits(p, radix), radix);
    }
  }

  /** Writing the number read from canonical digits gives the same digits. */
  lemma {:induction false} ToFromDigits(ds: seq<nat>, radix: nat)
    requires radix >= 2 && Canonical(ds, radix)
    ensures ToDigits(FromDigits(ds, radix), radix) == ds
  {
    if |ds| > 1 {
      var p, d := ds[..|ds| - 1], ds[|ds| - 1];
      assert Canonical(p, radix);
      var x := FromDigits(p, radix);
      var n := FromDigits(ds, radix);
      assert n == x * radix + d;
      LeadingDigitPositive(p, radix);
      MulAtLeast(x, radix);
      DivModOfDigit(x, d, radix);
      ToFromDigits(p, radix);
      assert ToDigits(n, radix) == ToDigits(x, radix) + [d];
      assert ds == p + [d];
    }
  }

  /** The binary digits of n list its bits from the highest set one down to bit 0. */
  lemma {:induction false} BinaryDigitsAreBits(n: nat)
    ensures var ds := ToDigits(n, 2);
      (forall i: nat | i < |ds| :: (ds[|ds| - 1 - i] == 1) == BitOf(n, i)) &&
      (forall i: nat | i >= |ds| :: !BitOf(n, i))
  {
    var ds := ToDigits(n, 2);
    if n < 2 {
      forall i: nat | i >= 1
        ensures !BitOf(n, i)
      {
        BitOfAbove(n / 2, 0, i - 1);
      }
    } else {
      BinaryDigitsAreBits(n / 2);
      var ds' := ToDigits(n / 2, 2);
      assert ds == ds' + [n % 2];
      forall i: nat | 0 < i < |ds|
        ensures (ds[|ds| - 1 - i] == 1) == BitOf(n, i)
      {
        assert ds[|ds| - 1 - i] == ds'[|ds'| - 1 - (i - 1)];
      }
    }
  }

  /** Bit i of the number that binary digits ds denote is the i-th digit from the right, 0 past them. */
  lemma {:induction false} FromBinaryDigitsBits(ds: seq<nat>, i: nat)
    requires forall k | 0 <= k < |ds| :: ds[k] < 2
    ensures BitOf(FromDigits(ds, 2), i) == (i < |ds| && ds[|ds| - 1 - i] == 1)
  {
    if |ds| == 0 {
      BitOfAbove(0, 0, i);
    } else {
      var front := ds[..|ds| - 1];
      var n := FromDigits(ds, 2);
      assert n == FromDigits(front, 2) * 2 + ds[|ds| - 1];
      DivModOfDigit(FromDigits(front, 2), ds[|ds| - 1], 2);
      if i > 0 {
        FromBinaryDigitsBits(front, i - 1);
        assert i - 1 < |front| ==> ds[|ds| - 1 - i] == front[|front| - 1 - (i - 1)];
      }
    }
  }

  /** Bit i of the number that hexadecimal digits ds denote is bit i % 4 of digit i / 4 from the right. */
  lemma {:induction false} FromHexDigitsBits(ds: seq<nat>, i: nat)
    requires forall k | 0 <= k < |ds| :: ds[k] < 16
    ensures BitOf(FromDigits(ds, 16), i) == (i / 4 < |ds| && BitOf(ds[|ds| - 1 - i / 4], i % 4))
  {
    if |ds| == 0 {
      BitOfAbove(0, 0, i);
    } else {
      var front := ds[..|ds| - 1];
      var last := ds[|ds| - 1];
      assert Pow2(4) == 16;
      assert FromDigits(ds, 16) == last + Pow2(4) * FromDigits(front, 16);
      BitOfSplit(last, FromDigits(front, 16), 4, i);
      if i >= 4 {
        FromHexDigitsBits(front, i - 4);
        assert (i - 4) / 4 == i / 4 - 1 && (i - 4) % 4 == i % 4;
        assert (i - 4) / 4 < |front| ==> front[|front| - 1 - (i - 4) / 4] == ds[|ds| - 1 - i / 4];
      }
    }
  }

  /** The number held by little-endian 32-bit words. */
  function WordsToNat(ws: seq<Word>): nat
  {
    if |ws| == 0 then 0 else ws[0] + WordBase * WordsToNat(ws[1..])
  }

  /** Words that are all zero hold the number 0. */
  lemma {:induction false} WordsToNatZero(ws: seq<Word>)
    requires forall k | 0 <= k < |ws| :: ws[k] == 0
    ensures WordsToNat(ws) == 0
  {
    if |ws| > 0 {
      WordsToNatZero(ws[1..]);
    }
  }

  /** n hexadecimal digits denote a number below 2^(4n). */
  lemma {:induction false} HexDigitsBound(ds: seq<nat>)
    requires forall k | 0 <= k < |ds| :: ds[k] < 16
    ensures FromDigits(ds, 16) < Pow2(4 * |ds|)
  {
    if |ds| > 0 {
      var front := ds[..|ds| - 1];
      HexDigitsBound(front);
      Pow2Add(4 * |front|, 4);
      assert Pow2(4) == 16;
    }
  }

  /** The fewest little-endian words (at least one) that hold n. */
  function NatToWords(n: nat): (ws: seq<Word>)
    ensures |ws| >= 1
  {
    if n < WordBase then [n] else [n % WordBase] + NatToWords(n / WordBase)
  }

  /** Splitting a number into words and joining them again gives it back. */
  lemma {:induction false} WordsOfNatRoundTrip(n: nat)
    ensures WordsToNat(NatToWords(n)) == n
  {
    if n >= WordBase {
      WordsOfNatRoundTrip(n / WordBase);
      assert NatToWords(n)[1..] == NatToWords(n / WordBase);
    }
  }

  /** Bit i of the number held by words ws is bit i % 32 of word i / 32 (zero past the words). */
  lemma {:induction false} BitOfWordsToNat(ws: seq<Word>, i: nat)
    ensures BitOf(WordsToNat(ws), i) == (i / WordSize < |ws| && BitOf(ws[i / WordSize], i % WordSize))
  {
    if |ws| == 0 {
      BitOfAbove(0, 0, i);
    } else {
      Pow2WordSize();
      BitOfSplit(ws[0], WordsToNat(ws[1..]), WordSize, i);
      if i >= WordSize {
        var j := i - WordSize;
        BitOfWordsToNat(ws[1..], j);
        assert j / WordSize == i / WordSize - 1 && j % WordSize == i % WordSize;
        assert j / WordSize < |ws[1..]| ==> ws[1..][j / WordSize] == ws[i / WordSize];
      }
    }
  }
}
