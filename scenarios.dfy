/**
 * The cases of the repository's test suite, replayed against the model's
 * contracts: each method drives BitSet objects the way a test does and
 * promises, for what it observes, the values the test expects.
 */
module Scenarios {
  import opened Wrappers
  import opened Words
  import opened BitValue
  import opened Radix
  import opened Text
  import opened BitSets

  /** b is non-negative and its set bits are exactly the indices in bits. */
  ghost predicate HasBits(b: Bits, bits: set<nat>)
  {
    !b.sign && forall i: nat :: Get(b, i) == (i in bits)
  }

  /**
   * s is a binary literal starting with '1' whose '1' characters sit exactly
   * at the positions, counted from the right, in bits.
   */
  predicate OnesAt(s: string, bits: set<nat>)
  {
    IsBinaryLiteral(s) && s[0] == '1' &&
    (forall k | 0 <= k < |s| :: (s[k] == '1') == (|s| - 1 - k in bits)) &&
    forall x | x in bits :: x < |s|
  }

  /** toString(2) of a non-negative value whose set bits are those in bits is the literal with its '1's there. */
  lemma BinaryStringOfBits(v: Bits, bits: set<nat>, s: string)
    requires HasBits(v, bits) && OnesAt(s, bits)
    ensures ToString(v, 2) == Some(s)
  {
    forall i: nat | i < |s|
      ensures s[|s| - 1 - i] == if Get(v, i) then '1' else '0'
    {
      var k := |s| - 1 - i;
      assert |s| - 1 - k == i;
    }
    BinaryStringIff(v, s);
  }

  /** The '1's of the first string of the set chain. */
  lemma ChainFirstLiteral()
    ensures OnesAt("1000000000010000000000000000010001", {0, 4, 22, 33})
  {
  }

  /** The '1's of the second string of the set chain. */
  lemma ChainSecondLiteral()
    ensures OnesAt("10000000000000000010001", {0, 4, 22})
  {
  }

  /** The '1' of "1" followed by 32 zeros. */
  lemma Bit32Literal()
    ensures OnesAt("100000000000000000000000000000000", {32})
  {
  }

  /** The '1's of "1", 31 zeros, "1". */
  lemma Bits0And32Literal()
    ensures OnesAt("100000000000000000000000000000001", {0, 32})
  {
  }

  /** Writing v at bit i of a value with the bits in S adds i to S, or removes it. */
  lemma SetsBit(b: Bits, bits: set<nat>, i: nat, v: bool)
    requires HasBits(b, bits)
    ensures HasBits(BitValue.WithBit(b, i, v), if v then bits + {i} else bits - {i})
  {
  }

  /** Combining values with the bits in A and in B gives the intersection, union or symmetric difference. */
  lemma CombinesBits(op: Op, a: Bits, b: Bits, A: set<nat>, B: set<nat>)
    requires HasBits(a, A) && HasBits(b, B)
    ensures HasBits(BitValue.Combine(op, a, b), match op
      case AndOp => A * B
      case OrOp => A + B
      case XorOp => (A - B) + (B - A))
  {
  }

  /**
   * A new object is empty and has msb() Infinity; set(31) makes get(31) 1
   * and msb() 31; clear(31) makes get(31) 0 again.
   */
  method SetGetClear() returns (emptyAtFirst: bool, msbEmpty: Index, got: bool, msb: Index, afterClear: bool)
    ensures emptyAtFirst && msbEmpty == Infinity
    ensures got && msb == Finite(31) && !afterClear
  {
    var bs := new BitSet();
    ZeroHasNoBits();
    IsEmptyIsNoBits(bs.Value());
    emptyAtFirst, msbEmpty := IsEmpty(bs.Value()), Msb(bs.Value());
    SetsBit(bs.Value(), {}, 31, true);
    var _ := bs.Set(31, true);
    var v := bs.Value();
    MsbOfBits(v, {31}, 31);
    got, msb := Get(v, 31), Msb(v);
    var _ := bs.Clear(31);
    afterClear := Get(bs.Value(), 31);
  }

  /** set(512) grows the storage to 17 words; bits 511 and 513 stay 0. */
  method SetAutoScale() returns (below: bool, at: bool, above: bool, words: nat)
    ensures !below && at && !above && words == 17
  {
    var bs := new BitSet();
    ZeroHasNoBits();
    bs := bs.Set(512, true);
    below, at, above := Get(bs.Value(), 511), Get(bs.Value(), 512), Get(bs.Value(), 513);
    words := |bs.data|;
  }

  /** Chained set(100).set(333) gives msb() 333. */
  method MsbAfterChainedSets() returns (msb: Index)
    ensures msb == Finite(333)
  {
    var bs := new BitSet();
    ZeroHasNoBits();
    SetsBit(bs.Value(), {}, 100, true);
    bs := bs.Set(100, true);
    SetsBit(bs.Value(), {100}, 333, true);
    bs := bs.Set(333, true);
    MsbOfBits(bs.Value(), {100, 333}, 333);
    msb := Msb(bs.Value());
  }

  /** A non-negative value with bit 32 alone prints "1" and 32 zeros. */
  lemma Bit32String(v: Bits)
    requires !v.sign && forall i: nat :: Get(v, i) == (i == 32)
    ensures ToString(v, 2) == Some("100000000000000000000000000000000")
  {
    Bit32Literal();
    BinaryStringOfBits(v, {32}, "100000000000000000000000000000000");
  }

  /** A non-negative value with bits 0 and 32 prints "1", 31 zeros and "1". */
  lemma Bits0And32String(v: Bits)
    requires !v.sign && forall i: nat :: Get(v, i) == (i == 0 || i == 32)
    ensures ToString(v, 2) == Some("100000000000000000000000000000001")
  {
    Bits0And32Literal();
    BinaryStringOfBits(v, {0, 32}, "100000000000000000000000000000001");
  }

  /** Cardinalities and strings of the two values the and() case ends with. */
  lemma StringAndResults(a: Bits, b: Bits)
    requires HasBits(a, {}) && HasBits(b, {32})
    ensures Cardinality(a) == Finite(0) && Cardinality(b) == Finite(1)
    ensures ToString(a, 2) == Some("0") && ToString(b, 2) == Some("100000000000000000000000000000000")
  {
    IsEmptyIsNoBits(a);
    CardinalityZeroIsEmpty(a);
    ToArrayUnique(b, [32]);
    EmptyString(a, 2);
    Bit32String(b);
  }

  /**
   * bsa = {0}, bsb = {32}; bsa.and(bsb) leaves bsa with no bit, cardinality 0
   * and string "0", and bsb unchanged with bit 32 alone.
   */
  method StringAnd() returns (a: Bits, b: Bits, countA: Index, countB: Index, textA: Option<string>, textB: Option<string>)
    ensures HasBits(a, {}) && HasBits(b, {32})
    ensures countA == Finite(0) && countB == Finite(1)
    ensures textA == Some("0") && textB == Some("100000000000000000000000000000000")
  {
    var bsa := new BitSet();
    var bsb := new BitSet();
    ZeroHasNoBits();
    SetsBit(bsa.Value(), {}, 0, true);
    var _ := bsa.Set(0, true);
    SetsBit(bsb.Value(), {}, 32, true);
    var _ := bsb.Set(32, true);
    CombinesBits(AndOp, bsa.Value(), bsb.Value(), {0}, {32});
    var _ := bsa.And(bsb);
    a, b := bsa.Value(), bsb.Value();
    StringAndResults(a, b);
    countA, countB := Cardinality(a), Cardinality(b);
    textA, textB := ToString(a, 2), ToString(b, 2);
  }

  /** Cardinalities and strings of the two values the or() case ends with. */
  lemma StringOrResults(a: Bits, b: Bits)
    requires HasBits(a, {0, 32}) && HasBits(b, {32})
    ensures Cardinality(a) == Finite(2) && Cardinality(b) == Finite(1)
    ensures ToString(a, 2) == Some("100000000000000000000000000000001")
    ensures ToString(b, 2) == Some("100000000000000000000000000000000")
  {
    ToArrayUnique(a, [0, 32]);
    ToArrayUnique(b, [32]);
    Bits0And32String(a);
    Bit32String(b);
  }

  /**
   * bsa = {0}, bsb = {32}; bsa.or(bsb) gives bsa the bits {0, 32}, cardinality 2,
   * and leaves bsb at {32}, cardinality 1.
   */
  method StringOr() returns (a: Bits, b: Bits, countA: Index, countB: Index, textA: Option<string>, textB: Option<string>)
    ensures HasBits(a, {0, 32}) && HasBits(b, {32})
    ensures countA == Finite(2) && countB == Finite(1)
    ensures textA == Some("100000000000000000000000000000001") && textB == Some("100000000000000000000000000000000")
  {
    var bsa := new BitSet();
    var bsb := new BitSet();
    ZeroHasNoBits();
    SetsBit(bsa.Value(), {}, 0, true);
    var _ := bsa.Set(0, true);
    SetsBit(bsb.Value(), {}, 32, true);
    var _ := bsb.Set(32, true);
    CombinesBits(OrOp, bsa.Value(), bsb.Value(), {0}, {32});
    var _ := bsa.Or(bsb);
    a, b := bsa.Value(), bsb.Value();
    StringOrResults(a, b);
    countA, countB := Cardinality(a), Cardinality(b);
    textA, textB := ToString(a, 2), ToString(b, 2);
  }

  /** `x.clone().op(y)` and `y.clone().op(x)`, through `and`, `or` or `xor`, print the same. */
  method BothOrders(op: Op, x: BitSet, y: BitSet) returns (xy: Option<string>, yx: Option<string>)
    ensures xy == yx
  {
    BitValue.CombineCommutes(op, x.Value(), y.Value());
    var c1 := x.Clone();
    var c2 := y.Clone();
    match op {
      case AndOp => var _ := c1.And(y); var _ := c2.And(x);
      case OrOp => var _ := c1.Or(y); var _ := c2.Or(x);
      case XorOp => var _ := c1.Xor(y); var _ := c2.Xor(x);
    }
    xy, yx := ToString(c1.Value(), 2), ToString(c2.Value(), 2);
  }

  /** a = {1}, b = {50}: a.clone().op(b) and b.clone().op(a) print the same for and, or and xor. */
  method DifferentLengths() returns (andAB: Option<string>, andBA: Option<string>,
                                     orAB: Option<string>, orBA: Option<string>,
                                     xorAB: Option<string>, xorBA: Option<string>)
    ensures andAB == andBA && orAB == orBA && xorAB == xorBA
  {
    var a := new BitSet();
    var b := new BitSet();
    a := a.Set(1, true);
    b := b.Set(50, true);
    andAB, andBA := BothOrders(AndOp, a, b);
    orAB, orBA := BothOrders(OrOp, a, b);
    xorAB, xorBA := BothOrders(XorOp, a, b);
  }

  /**
   * a = b.set(50) makes a and b one object, so a.xor(b) and then b.xor(a)
   * each xor that object with itself: both print "0".
   */
  method SelfXor() returns (ab: Option<string>, ba: Option<string>)
    ensures ab == Some("0") && ba == Some("0")
  {
    var a := new BitSet();
    var b := new BitSet();
    a := a.Set(1, true);
    a := b.Set(50, true);
    var x := a.Xor(b);
    EmptyString(x.Value(), 2);
    ab := ToString(x.Value(), 2);
    var y := b.Xor(a);
    EmptyString(y.Value(), 2);
    ba := ToString(y.Value(), 2);
  }

  /** A non-negative value with bits 0 and 3 prints "1001". */
  lemma NineString(v: Bits)
    requires !v.sign && forall i: nat :: Get(v, i) == (i == 0 || i == 3)
    ensures ToString(v, 2) == Some("1001")
  {
    BinaryStringOfBits(v, {0, 3}, "1001");
  }

  /** The bits of "1010" and "0011". */
  lemma XorOperandBits()
    ensures Parse("1010").Success? && Parse("0011").Success?
    ensures forall i: nat :: Get(Parse("1010").value, i) == (i == 1 || i == 3)
    ensures forall i: nat :: Get(Parse("0011").value, i) == (i == 0 || i == 1)
  {
    ParseBinaryLiteral("1010");
    ParseBinaryLiteral("0011");
  }

  /** new BitSet("1010").xor("0011") prints "1001". */
  method XorOfLiterals() returns (text: Option<string>)
    ensures text == Some("1001")
  {
    XorOperandBits();
    var p := BitSet.Parse("1010");
    var q := BitSet.Parse("0011");
    var bs := p.value;
    bs := bs.Xor(q.value);
    assert forall i: nat :: Get(bs.Value(), i) == (i == 0 || i == 3);
    NineString(bs.Value());
    text := ToString(bs.Value(), 2);
  }

  /** Bits {0, 4, 22, 33} print "1000000000010000000000000000010001". */
  lemma SetChainFirstString(v: Bits)
    requires HasBits(v, {0, 4, 22, 33})
    ensures ToString(v, 2) == Some("1000000000010000000000000000010001")
  {
    ChainFirstLiteral();
    BinaryStringOfBits(v, {0, 4, 22, 33}, "1000000000010000000000000000010001");
  }

  /** Bits {0, 4, 22} print "10000000000000000010001". */
  lemma SetChainSecondString(v: Bits)
    requires HasBits(v, {0, 4, 22})
    ensures ToString(v, 2) == Some("10000000000000000010001")
  {
    ChainSecondLiteral();
    BinaryStringOfBits(v, {0, 4, 22}, "10000000000000000010001");
  }

  /** msb() of a non-negative value is the largest index in its set of bits. */
  lemma MsbOfBits(v: Bits, bits: set<nat>, m: nat)
    requires HasBits(v, bits) && m in bits
    requires forall x | x in bits :: x <= m
    ensures Msb(v) == Finite(m)
  {
    var r := Msb(v);
    assert Get(v, m);
    assert r.Finite? && r.n in bits;
  }

  /** set(4, 1).set(0).set(22, 1).set(33, 1) on a new object sets the bits {0, 4, 22, 33}. */
  method SetFour() returns (bs: BitSet)
    ensures fresh(bs) && HasBits(bs.Value(), {0, 4, 22, 33})
  {
    bs := new BitSet();
    ZeroHasNoBits();
    SetsBit(bs.Value(), {}, 4, true);
    var _ := bs.Set(4, true);
    SetsBit(bs.Value(), {4}, 0, true);
    var _ := bs.Set(0, true);
    SetsBit(bs.Value(), {0, 4}, 22, true);
    var _ := bs.Set(22, true);
    SetsBit(bs.Value(), {0, 4, 22}, 33, true);
    var _ := bs.Set(33, true);
  }

  /** From bits {0, 4, 22, 33}: set(33, 0) leaves {0, 4, 22}, then set(330, 1) adds 330. */
  method ResetThenGrow(bs: BitSet) returns (second: Option<string>, msb1: Index, msb2: Index)
    requires HasBits(bs.Value(), {0, 4, 22, 33})
    modifies bs
    ensures second == Some("10000000000000000010001")
    ensures msb1 == Finite(22) && msb2 == Finite(330)
  {
    SetsBit(bs.Value(), {0, 4, 22, 33}, 33, false);
    var _ := bs.Set(33, false);
    assert HasBits(bs.Value(), {0, 4, 22});
    SetChainSecondString(bs.Value());
    MsbOfBits(bs.Value(), {0, 4, 22}, 22);
    second, msb1 := ToString(bs.Value(), 2), Msb(bs.Value());
    SetsBit(bs.Value(), {0, 4, 22}, 330, true);
    var _ := bs.Set(330, true);
    MsbOfBits(bs.Value(), {0, 4, 22, 330}, 330);
    msb2 := Msb(bs.Value());
  }

  /**
   * set(4, 1).set(0).set(22, 1).set(33, 1) prints bits {0, 4, 22, 33};
   * set(33, 0) drops bit 33 and msb() is 22; set(330, 1) makes msb() 330.
   */
  method SetChain() returns (first: Option<string>, second: Option<string>, msb1: Index, msb2: Index)
    ensures first == Some("1000000000010000000000000000010001")
    ensures second == Some("10000000000000000010001")
    ensures msb1 == Finite(22) && msb2 == Finite(330)
  {
    var bs := SetFour();
    SetChainFirstString(bs.Value());
    first := ToString(bs.Value(), 2);
    second, msb1, msb2 := ResetThenGrow(bs);
  }

  /** not() of zero: get(2000) is 1, msb() and cardinality() are Infinity, toString(2) is "...1111". */
  method InvertedZero() returns (far: bool, msb: Index, count: Index, text: Option<string>)
    ensures far && msb == Infinity && count == Infinity && text == Some("...1111")
  {
    var a := new BitSet();
    ZeroHasNoBits();
    a := a.Not();
    far, msb, count := Get(a.Value(), 2000), Msb(a.Value()), Cardinality(a.Value());
    NegativeBinaryString(a.Value());
    text := ToString(a.Value(), 2);
  }

  /** The number 0xff has exactly its eight lowest bits set. */
  lemma LowByteBits()
    ensures forall i: nat :: BitOf(0xff, i) == (i < 8)
  {
    forall i: nat
      ensures BitOf(0xff, i) == (i < 8)
    {
      if i >= 8 {
        assert 0xff < Pow2(8);
        BitOfAbove(0xff, 8, i);
      }
    }
  }

  /** A non-negative value with exactly bits 0 to 7 prints "11111111". */
  lemma LowByteString(v: Bits)
    requires !v.sign && forall i: nat :: Get(v, i) == (i < 8)
    ensures ToString(v, 2) == Some("11111111")
  {
    BinaryStringOfBits(v, {0, 1, 2, 3, 4, 5, 6, 7}, "11111111");
  }

  /** and(0xff) after not() cuts the infinite tail back to eight set bits, printed "11111111". */
  method CutOffInfinity() returns (v: Bits, text: Option<string>)
    ensures !v.sign
    ensures forall i: nat :: Get(v, i) == (i < 8)
    ensures text == Some("11111111")
  {
    var a := new BitSet();
    ZeroHasNoBits();
    a := a.Not();
    var mask := new BitSet.FromNumber(0xff);
    a := a.And(mask);
    LowByteBits();
    v := a.Value();
    LowByteString(v);
    text := ToString(v, 2);
  }

  /** The value with bits {4, 8, 32, 65}: toArray() lists them and cardinality() is 4. */
  lemma InvertingArray(v: Bits)
    requires !v.sign && |v.data| == 3
    requires forall i: nat :: Get(v, i) == (i == 4 || i == 8 || i == 32 || i == 65)
    ensures ToArray(v) == [4, 8, 32, 65] && Cardinality(v) == Finite(4)
  {
    ToArrayUnique(v, [4, 8, 32, 65]);
  }

  /** Word k of a value is w when w's 32 bits are the value's bits 32k to 32k + 31. */
  lemma WordOfBits(v: Bits, k: nat, w: Word)
    requires k < |v.data|
    requires forall j: nat | j < WordSize :: BitOf(w, j) == Get(v, WordSize * k + j)
    ensures v.data[k] == w
  {
    forall j: nat | j < WordSize
      ensures BitOf(v.data[k], j) == BitOf(w, j)
    {
      assert (WordSize * k + j) / WordSize == k && (WordSize * k + j) % WordSize == j;
    }
    Pow2WordSize();
    BitExtensionality(v.data[k], w, WordSize);
  }

  /** The bits of the words 272 = 2^4 + 2^8, 1 = 2^0 and 2 = 2^1. */
  lemma InvertingWordBits(j: nat)
    requires j < WordSize
    ensures BitOf(272, j) == (j == 4 || j == 8)
    ensures BitOf(1, j) == (j == 0) && BitOf(2, j) == (j == 1)
  {
    assert Pow2(0) == 1 && Pow2(1) == 2 && Pow2(4) == 16 && Pow2(8) == 256;
    forall k: nat | k < WordSize
      ensures !(BitOf(16, k) && BitOf(256, k))
    {
      Pow2Bit(4, k);
      Pow2Bit(8, k);
    }
    CombineOrDisjoint(16, 256);
    Pow2Bit(4, j);
    Pow2Bit(8, j);
    Pow2Bit(0, j);
    Pow2Bit(1, j);
  }

  /** The value with bits {4, 8, 32, 65} in three words stores the words [272, 1, 2]. */
  lemma InvertingWords(v: Bits)
    requires !v.sign && |v.data| == 3
    requires forall i: nat :: Get(v, i) == (i == 4 || i == 8 || i == 32 || i == 65)
    ensures v.data == [272, 1, 2]
  {
    forall j: nat | j < WordSize
      ensures BitOf(272, j) == Get(v, j)
      ensures BitOf(1, j) == Get(v, WordSize + j)
      ensures BitOf(2, j) == Get(v, 2 * WordSize + j)
    {
      InvertingWordBits(j);
    }
    WordOfBits(v, 0, 272);
    WordOfBits(v, 1, 1);
    WordOfBits(v, 2, 2);
  }

  /**
   * set(4), set(32), not(), set(65, 0), not(), set(8, 1) leave exactly the
   * bits {4, 8, 32, 65} in the three words [272, 1, 2]; toArray() is
   * [4, 8, 32, 65] and cardinality() is 4.
   */
  method Inverting() returns (v: Bits)
    ensures forall i: nat :: Get(v, i) == (i == 4 || i == 8 || i == 32 || i == 65)
    ensures !v.sign && v.data == [272, 1, 2]
    ensures ToArray(v) == [4, 8, 32, 65] && Cardinality(v) == Finite(4)
  {
    var x := new BitSet();
    ZeroHasNoBits();
    x := x.Set(4, true);
    x := x.Set(32, true);
    x := x.Not();
    x := x.Set(65, false);
    x := x.Not();
    x := x.Set(8, true);
    v := x.Value();
    InvertingArray(v);
    InvertingWords(v);
  }

  /** The value or(t1), xor(t2), and(t3) leave in a new object is the one word ((0 | t1) ^ t2) & t3. */
  lemma FuzzValue(t1: Word, t2: Word, t3: Word)
    ensures var v := BitValue.Combine(AndOp, BitValue.Combine(XorOp,
              BitValue.Combine(OrOp, Zero, BitValue.FromNumber(t1)), BitValue.FromNumber(t2)), BitValue.FromNumber(t3));
      v.data == [Words.Combine(AndOp, Words.Combine(XorOp, Words.Combine(OrOp, 0, t1), t2), t3)] && !v.sign
  {
    assert t1 % WordBase == t1 && t2 % WordBase == t2 && t3 % WordBase == t3;
    var v1 := BitValue.Combine(OrOp, Zero, BitValue.FromNumber(t1));
    OneWordCombine(OrOp, Zero, BitValue.FromNumber(t1));
    var v2 := BitValue.Combine(XorOp, v1, BitValue.FromNumber(t2));
    OneWordCombine(XorOp, v1, BitValue.FromNumber(t2));
    OneWordCombine(AndOp, v2, BitValue.FromNumber(t3));
  }

  /** Combining two one-word values combines their words. */
  lemma OneWordCombine(op: Op, a: Bits, b: Bits)
    requires |a.data| == 1 && |b.data| == 1
    ensures BitValue.Combine(op, a, b).data == [Words.Combine(op, a.data[0], b.data[0])]
  {
    assert WordAt(a, 0) == a.data[0] && WordAt(b, 0) == b.data[0];
  }

  /** Bit k of the native ((0 | t1) ^ t2) & t3 is set when t1 and t2 differ there and t3 has it. */
  lemma FuzzWordBits(t1: Word, t2: Word, t3: Word)
    ensures var x := Words.Combine(AndOp, Words.Combine(XorOp, Words.Combine(OrOp, 0, t1), t2), t3);
      forall k: nat | k < WordSize :: BitOf(x, k) == ((BitOf(t1, k) != BitOf(t2, k)) && BitOf(t3, k))
  {
    forall k: nat | k < WordSize
      ensures !BitOf(0, k)
    {
      FillBits(k);
    }
  }

  /** An and with an operand below 1 << 24, the fuzz test's range, stays below it. */
  lemma FuzzWordBound(y: Word, t3: Word)
    requires t3 < 0x100_0000
    ensures Words.Combine(AndOp, y, t3) < 0x100_0000
  {
    assert Pow2(8) == 256;
    Pow2Add(8, 8);
    Pow2Add(16, 8);
    AndBelow(y, t3, 24);
  }

  /**
   * The fuzz test's agreement: for inputs below 1 << 24, as the test draws them,
   * starting from an empty object, or(t1), xor(t2), and(t3) give the same
   * binary string as the native x = ((0 | t1) ^ t2) & t3. The native result
   * stays below 1 << 24, so the signed 32-bit result of `&` is x itself.
   */
  method FuzzAgreement(t1: Word, t2: Word, t3: Word) returns (x: Word, s: string)
    requires t1 < 0x100_0000 && t2 < 0x100_0000 && t3 < 0x100_0000
    ensures forall k: nat | k < WordSize :: BitOf(x, k) == ((BitOf(t1, k) != BitOf(t2, k)) && BitOf(t3, k))
    ensures x < 0x100_0000
    ensures s == DigitString(ToDigits(x, 2), 2)
  {
    x := Words.Combine(AndOp, Words.Combine(XorOp, Words.Combine(OrOp, 0, t1), t2), t3);
    FuzzWordBits(t1, t2, t3);
    FuzzWordBound(Words.Combine(XorOp, Words.Combine(OrOp, 0, t1), t2), t3);
    var foo := new BitSet();
    var n1 := new BitSet.FromNumber(t1);
    foo := foo.Or(n1);
    var n2 := new BitSet.FromNumber(t2);
    foo := foo.Xor(n2);
    var n3 := new BitSet.FromNumber(t3);
    foo := foo.And(n3);
    FuzzValue(t1, t2, t3);
    assert WordsToNat([x]) == x;
    s := ToString(foo.Value(), 2).value;
  }

  /** new BitSet("0x" + d).toString(16) for canonical hex digits d is d in lower case. */
  method HexEcho(d: string) returns (text: Option<string>)
    requires CanonicalLiteral(d, 16)
    ensures text == Some(LowerString(d))
  {
    HexRoundTrip(d);
    var p := BitSet.Parse("0x" + d);
    text := ToString(p.value.Value(), 16);
  }

  /** new BitSet("0xD00000005").toString(16) is "d00000005". */
  method HexInHexOut() returns (text: Option<string>)
    ensures text == Some("d00000005")
  {
    var d := "D00000005";
    assert LowerString(d) == "d00000005";
    text := HexEcho(d);
  }

  /** The words 256 and 512 have no bit in common, so 256 | 512 is 768. */
  lemma OrOfPowers()
    ensures Words.Combine(OrOp, 256, 512) == 768
  {
    assert Pow2(8) == 256 && Pow2(9) == 512;
    forall k: nat | k < WordSize
      ensures !(BitOf(256, k) && BitOf(512, k))
    {
      Pow2Bit(8, k);
      Pow2Bit(9, k);
    }
    CombineOrDisjoint(256, 512);
  }

  /** 768 in hexadecimal is "300". */
  lemma HexOf768()
    ensures ToString(Bits([768], false), 16) == Some("300")
  {
    assert WordsToNat([768]) == 768;
    assert ToDigits(3, 16) == [3];
    assert ToDigits(48, 16) == [3, 0];
    assert ToDigits(768, 16) == [3, 0, 0];
    assert DigitString([3, 0, 0], 16) == "300";
  }

  /** The four bits of the hexadecimal digits f and 0. */
  lemma NibbleBits(k: nat)
    requires k < 4
    ensures BitOf(15, k) && !BitOf(0, k)
  {
    FillBits(k);
    if k == 0 {
    } else if k == 1 {
      assert BitOf(15, 1) == BitOf(7, 0);
    } else if k == 2 {
      assert BitOf(15, 2) == BitOf(3, 0);
    } else {
      assert BitOf(15, 3) == BitOf(1, 0);
    }
  }

  /** Bit 4n + m of "0xfe00" is also set in "0xff05", digit by digit: f within f, e within f, 0 within 0 and 5. */
  lemma AndOperandBits(n: nat, m: nat)
    requires m < 4
    ensures Parse("0x" + "ff05").Success? && Parse("0x" + "fe00").Success?
    ensures Get(Parse("0x" + "fe00").value, 4 * n + m) ==> Get(Parse("0x" + "ff05").value, 4 * n + m)
  {
    HexLiteralBit("ff05", n, m);
    HexLiteralBit("fe00", n, m);
    NibbleBits(m);
    if n == 0 {
      assert "fe00"[3] == '0';
    } else if n == 1 {
      assert "fe00"[2] == '0';
    } else if n == 2 {
      assert "ff05"[1] == 'f';
    } else if n == 3 {
      assert "ff05"[0] == 'f';
    }
  }

  /** "0xfe00" written back in hexadecimal is "fe00". */
  lemma HexOfFe00()
    ensures Parse("0xfe00").Success? && ToString(Parse("0xfe00").value, 16) == Some("fe00")
  {
    var d := "fe00";
    assert LowerString(d) == d by {
      assert Lower('f') == 'f' && Lower('e') == 'e' && Lower('0') == '0';
    }
    assert "0x" + d == "0xfe00";
    HexRoundTrip(d);
  }

  /** "0xff05" and "0xfe00" leave the bits of "0xfe00". */
  lemma AndKeepsFe00()
    ensures Parse("0xff05").Success? && Parse("0xfe00").Success?
    ensures SameBits(BitValue.Combine(AndOp, Parse("0xff05").value, Parse("0xfe00").value), Parse("0xfe00").value)
  {
    assert "0x" + "ff05" == "0xff05" && "0x" + "fe00" == "0xfe00";
    AndOperandBits(0, 0);
    var a, e := Parse("0xff05").value, Parse("0xfe00").value;
    forall i: nat
      ensures Get(a, i) && Get(e, i) <==> Get(e, i)
    {
      var n, m := i / 4, i % 4;
      assert i == 4 * n + m;
      AndOperandBits(n, m);
    }
  }

  /** new BitSet("0xff05").and("0xfe00").toString(16) is "fe00". */
  method AndOfHexLiterals() returns (text: Option<string>)
    ensures text == Some("fe00")
  {
    AndKeepsFe00();
    var p := BitSet.Parse("0xff05");
    var q := BitSet.Parse("0xfe00");
    var a, b := p.value, q.value;
    var e := b.Value();
    a := a.And(b);
    HexOfFe00();
    SameBitsSameString(a.Value(), e, 16);
    text := ToString(a.Value(), 16);
  }

  /** new BitSet(256).or(512).toString(16) is "300". */
  method OrNumbers() returns (text: Option<string>)
    ensures text == Some("300")
  {
    var a := new BitSet.FromNumber(256);
    var b := new BitSet.FromNumber(512);
    a := a.Or(b);
    assert FromNumber(256) == Bits([256], false) && FromNumber(512) == Bits([512], false);
    OneWordCombine(OrOp, FromNumber(256), FromNumber(512));
    OrOfPowers();
    assert a.Value() == Bits([768], false);
    HexOf768();
    text := ToString(a.Value(), 16);
  }

  /** A slice that starts above every set bit of a non-negative value prints "0". */
  lemma SliceAboveString(b: Bits, start: nat, end: nat, radix: nat)
    requires IsRadix(radix) && !b.sign && forall i: nat | i >= start :: !Get(b, i)
    ensures ToString(Slice(b, start, end), radix) == Some("0")
  {
    EmptyString(Slice(b, start, end), radix);
  }

  /** new BitSet("0xff900018283821283").slice(130, 160).toString(8) is "0". */
  method SliceFarOut() returns (text: Option<string>)
    ensures text == Some("0")
  {
    var d := "ff900018283821283";
    HexRoundTrip(d);
    HexLiteralWidth(d);
    var p := BitSet.Parse("0x" + d);
    var b := p.value.Value();
    SliceAboveString(b, 130, 160, 8);
    text := ToString(Slice(b, 130, 160), 8);
  }

  /** new BitSet(19219).toString(10) is "19219". */
  lemma DecimalOfNumber()
    ensures ToString(FromNumber(19219), 10) == Some("19219")
  {
    assert WordsToNat([19219]) == 19219;
    assert ToDigits(1, 10) == [1];
    assert ToDigits(19, 10) == [1, 9];
    assert ToDigits(192, 10) == [1, 9, 2];
    assert ToDigits(1921, 10) == [1, 9, 2, 1];
    assert ToDigits(19219, 10) == [1, 9, 2, 1, 9];
    assert FromNumber(19219) == Bits([19219], false);
    assert DigitString([1, 9, 2, 1, 9], 10) == "19219";
  }

  /** The bits of the binary literals "111" and "101". */
  lemma SmallLiterals()
    ensures Parse("111").Success? && Parse("101").Success?
    ensures forall i: nat :: Get(Parse("111").value, i) == (i < 3)
    ensures forall i: nat :: Get(Parse("101").value, i) == (i == 0 || i == 2)
  {
    assert LiteralRadix("111") == 2 && LiteralDigits("111") == "111";
    assert LiteralRadix("101") == 2 && LiteralDigits("101") == "101";
    assert ParseDigits("111", 2).value == [1, 1, 1];
    assert ParseDigits("101", 2).value == [1, 0, 1];
    assert [1, 1, 1][..2] == [1, 1] && [1, 0, 1][..2] == [1, 0];
    assert [1, 1][..1] == [1] && [1, 0][..1] == [1] && [1][..0] == [];
    assert FromDigits([1, 1, 1], 2) == 7 && FromDigits([1, 0, 1], 2) == 5;
    var seven, five := Parse("111").value, Parse("101").value;
    forall i: nat
      ensures Get(seven, i) == (i < 3) && Get(five, i) == (i == 0 || i == 2)
    {
      ValueBits(seven, i);
      ValueBits(five, i);
      if i >= 3 {
        assert Pow2(3) == 8;
        BitOfAbove(7, 3, i);
        BitOfAbove(5, 3, i);
      }
    }
  }

  /** A non-negative value with exactly bits 0 to 2 prints "111". */
  lemma SevenString(v: Bits)
    requires !v.sign && forall i: nat :: Get(v, i) == (i < 3)
    ensures ToString(v, 2) == Some("111")
  {
    BinaryStringOfBits(v, {0, 1, 2}, "111");
  }

  /** A non-negative value with exactly bits 0 and 2 prints "101". */
  lemma FiveString(v: Bits)
    requires !v.sign && forall i: nat :: Get(v, i) == (i == 0 || i == 2)
    ensures ToString(v, 2) == Some("101")
  {
    BinaryStringOfBits(v, {0, 2}, "101");
  }

  /** Clearing bit 1 of "111" leaves bits 0 and 2: it prints "101", get(1) is 0, get(2) is 1 and it equals "101". */
  lemma ClearedSeven(seven: Bits, five: Bits)
    requires !seven.sign && forall i: nat :: Get(seven, i) == (i < 3)
    requires !five.sign && forall i: nat :: Get(five, i) == (i == 0 || i == 2)
    ensures var c := BitValue.WithBit(seven, 1, false);
      ToString(c, 2) == Some("101") && !Get(c, 1) && Get(c, 2) && Equals(c, five)
  {
    var c := BitValue.WithBit(seven, 1, false);
    assert forall i: nat :: Get(c, i) == (i == 0 || i == 2);
    FiveString(c);
    EqualsIsSameBits(c, five);
  }

  /**
   * The reported bug: "111" prints "111"; with bit 1 cleared it prints "101",
   * has get(1) 0 and get(2) 1, and equals "101".
   */
  method ReportedBug() returns (before: Option<string>, after: Option<string>, c: bool, d: bool, t: bool)
    ensures before == Some("111") && after == Some("101")
    ensures !c && d && t
  {
    SmallLiterals();
    var p1 := BitSet.Parse("101");
    var p2 := BitSet.Parse("111");
    var bs1, bs2 := p1.value, p2.value;
    var seven, five := bs2.Value(), bs1.Value();
    SevenString(seven);
    before := ToString(seven, 2);
    var bs3 := bs2.Clear(1);
    ClearedSeven(seven, five);
    var cleared := bs3.Value();
    after := ToString(cleared, 2);
    c, d := Get(cleared, 1), Get(cleared, 2);
    t := Equals(cleared, bs1.Value());
  }

  /** new BitSet() prints "0" in radix 32; new BitSet(-1) is one word of 32 ones. */
  lemma ConstructZeroAndMinusOne()
    ensures ToString(Zero, 32) == Some("0")
    ensures ToString(FromNumber(-1), 2) == Some("11111111111111111111111111111111")
  {
    ZeroHasNoBits();
    EmptyString(Zero, 32);
    var b := FromNumber(-1);
    var s := "11111111111111111111111111111111";
    forall i: nat | i < |s|
      ensures s[|s| - 1 - i] == if Get(b, i) then '1' else '0'
    {
      FillBits(i);
    }
    BinaryStringIff(b, s);
  }

  /** Every bit of 4 inverted is set but bit 2. */
  lemma NotFourBits()
    ensures Not(FromNumber(4)).sign
    ensures forall i: nat :: Get(Not(FromNumber(4)), i) == (i != 2)
  {
    var f := FromNumber(4);
    forall i: nat
      ensures Get(f, i) == (i == 2)
    {
      if i >= 3 {
        assert Pow2(3) == 8;
        BitOfAbove(4, 3, i);
      } else {
        assert BitOf(4, i) == (i == 2);
      }
    }
  }

  /** A value whose bits are all set but bit 2 prints "...1111011". */
  lemma NotFourString(v: Bits)
    requires v.sign && forall i: nat :: Get(v, i) == (i != 2)
    ensures ToString(v, 2) == Some("...1111011")
  {
    NegativeStringIff(v, "011");
    assert NegativePrefix + "011" == "...1111011";
  }

  /** slice(1) of that value prints "...111101". */
  lemma NotFourShifted(v: Bits)
    requires v.sign && forall i: nat :: Get(v, i) == (i != 2)
    ensures ToString(SliceFrom(v, 1), 2) == Some("...111101")
  {
    NegativeStringIff(SliceFrom(v, 1), "01");
    assert NegativePrefix + "01" == "...111101";
  }

  /** slice(1, 3) of that value prints "101". */
  lemma NotFourCut(v: Bits)
    requires v.sign && forall i: nat :: Get(v, i) == (i != 2)
    ensures ToString(Slice(v, 1, 3), 2) == Some("101")
  {
    BinaryStringIff(Slice(v, 1, 3), "101");
  }

  /** new BitSet(4).not(): "...1111011"; slice(1) keeps the tail, "...111101"; slice(1, 3) is "101". */
  method SliceNegated() returns (whole: Option<string>, shifted: Option<string>, cut: Option<string>)
    ensures whole == Some("...1111011")
    ensures shifted == Some("...111101")
    ensures cut == Some("101")
  {
    var bs := new BitSet.FromNumber(4);
    bs := bs.Not();
    var v := bs.Value();
    NotFourBits();
    NotFourString(v);
    NotFourShifted(v);
    NotFourCut(v);
    whole, shifted, cut := ToString(v, 2), ToString(SliceFrom(v, 1), 2), ToString(Slice(v, 1, 3), 2);
  }

  /** ntz() of a binary literal is the position, from the right, of its last '1'. */
  lemma NtzOfBinaryLiteral(s: string, n: nat)
    requires IsBinaryLiteral(s) && n < |s| && s[|s| - 1 - n] == '1'
    requires forall k | |s| - n <= k < |s| :: s[k] == '0'
    ensures Parse(s).Success? && Ntz(Parse(s).value) == Finite(n)
  {
    ParseBinaryLiteral(s);
    var b := Parse(s).value;
    assert Get(b, n);
    forall j: nat | j < n
      ensures !Get(b, j)
    {
      assert s[|s| - 1 - j] == '0';
    }
  }

  /** ntz() of a binary literal of zeros is Infinity. */
  lemma NtzOfZeroLiteral(s: string)
    requires IsBinaryLiteral(s) && forall k | 0 <= k < |s| :: s[k] == '0'
    ensures Parse(s).Success? && Ntz(Parse(s).value) == Infinity
  {
    ParseBinaryLiteral(s);
    var b := Parse(s).value;
    forall j: nat
      ensures !Get(b, j)
    {
      if j < |s| {
        assert s[|s| - 1 - j] == '0';
      }
    }
  }

  /** msb() of a binary literal with a leading '1' is its length minus one. */
  lemma MsbOfBinaryLiteral(s: string)
    requires IsBinaryLiteral(s) && s[0] == '1'
    ensures Parse(s).Success? && Msb(Parse(s).value) == Finite(|s| - 1)
  {
    ParseBinaryLiteral(s);
    var b := Parse(s).value;
    assert Get(b, |s| - 1);
  }

  /** Two binary literals of one length parse to equal values exactly when they are the same string. */
  lemma EqualsOfBinaryLiterals(s: string, t: string)
    requires IsBinaryLiteral(s) && IsBinaryLiteral(t) && |s| == |t|
    ensures Parse(s).Success? && Parse(t).Success?
    ensures Equals(Parse(s).value, Parse(t).value) <==> s == t
  {
    ParseBinaryLiteral(s);
    ParseBinaryLiteral(t);
    var a, b := Parse(s).value, Parse(t).value;
    EqualsIsSameBits(a, b);
    if s != t {
      var k :| 0 <= k < |s| && s[k] != t[k];
      var i: nat := |s| - 1 - k;
      assert Get(a, i) != Get(b, i);
    }
  }

  /** ntz() of "10000000000110001000000000" is 9. */
  lemma NtzNine()
    ensures Parse("10000000000110001000000000").Success?
    ensures Ntz(Parse("10000000000110001000000000").value) == Finite(9)
  {
    NtzOfBinaryLiteral("10000000000110001000000000", 9);
  }

  /** ntz() of a literal of 26 zeros is Infinity. */
  lemma NtzNone()
    ensures Parse("00000000000000000000000000").Success?
    ensures Ntz(Parse("00000000000000000000000000").value) == Infinity
  {
    NtzOfZeroLiteral("00000000000000000000000000");
  }

  /** ntz() of "10000000000000000000000000" is 25. */
  lemma NtzTwentyFive()
    ensures Parse("10000000000000000000000000").Success?
    ensures Ntz(Parse("10000000000000000000000000").value) == Finite(25)
  {
    NtzOfBinaryLiteral("10000000000000000000000000", 25);
  }

  /** ntz() of a 44-digit literal whose last '1' is 36th from the right is 35. */
  lemma NtzThirtyFive()
    ensures Parse("10000000100000000000000000000000000000000000").Success?
    ensures Ntz(Parse("10000000100000000000000000000000000000000000").value) == Finite(35)
  {
    NtzOfBinaryLiteral("10000000100000000000000000000000000000000000", 35);
  }

  /** cardinality() of a non-negative value is the length of any increasing list of its set bits. */
  lemma CardinalityOfList(v: Bits, xs: seq<nat>)
    requires !v.sign && forall k, l | 0 <= k < l < |xs| :: xs[k] < xs[l]
    requires forall x: nat :: x in xs <==> Get(v, x)
    ensures Cardinality(v) == Finite(|xs|)
  {
    forall x: nat | Get(v, x)
      ensures x < Extent(v)
    {
      assert x / WordSize < |v.data|;
    }
    ToArrayUnique(v, xs);
  }

  /**
   * cardinality() of a binary literal is the number of its '1' digits:
   * ones lists their positions, counted from the right, in ascending order.
   */
  lemma LiteralCardinality(s: string, ones: seq<nat>)
    requires IsBinaryLiteral(s)
    requires forall k, l | 0 <= k < l < |ones| :: ones[k] < ones[l]
    requires forall k | 0 <= k < |ones| :: ones[k] < |s|
    requires forall k | 0 <= k < |s| :: (s[k] == '1') == (|s| - 1 - k in ones)
    ensures Parse(s).Success? && Cardinality(Parse(s).value) == Finite(|ones|)
  {
    ParseBinaryLiteral(s);
    var b := Parse(s).value;
    forall x: nat
      ensures x in ones <==> Get(b, x)
    {
      if x < |s| {
        var k := |s| - 1 - x;
        assert (s[k] == '1') == (|s| - 1 - k in ones);
      }
    }
    CardinalityOfList(b, ones);
  }

  /** cardinality() of "1000000000000000000001101" is 4: bits 0, 2, 3 and 24. */
  lemma CardinalityOfLiteral()
    ensures Parse("1000000000000000000001101").Success?
    ensures Cardinality(Parse("1000000000000000000001101").value) == Finite(4)
  {
    LiteralCardinality("1000000000000000000001101", [0, 2, 3, 24]);
  }

  /** msb() of "1000000000000000000001101" is its length minus one. */
  lemma MsbOfLiteral()
    ensures Parse("1000000000000000000001101").Success?
    ensures Msb(Parse("1000000000000000000001101").value) == Finite(|"1000000000000000000001101"| - 1)
  {
    MsbOfBinaryLiteral("1000000000000000000001101");
  }

  /** "100000000000111010101" equals itself. */
  lemma EqualsSameLiteral()
    ensures Parse("100000000000111010101").Success?
    ensures Equals(Parse("100000000000111010101").value, Parse("100000000000111010101").value)
  {
    EqualsOfBinaryLiterals("100000000000111010101", "100000000000111010101");
  }

  /** "111010101" does not equal "101010101". */
  lemma EqualsOtherLiteral()
    ensures Parse("111010101").Success? && Parse("101010101").Success?
    ensures !Equals(Parse("111010101").value, Parse("101010101").value)
  {
    EqualsOfBinaryLiterals("111010101", "101010101");
  }

  /** set(4, 1) then set(0) on a new object: get(4) + get(0) is 2. */
  method GetTwo() returns (sum: nat)
    ensures sum == 2
  {
    var bs := new BitSet();
    ZeroHasNoBits();
    SetsBit(bs.Value(), {}, 4, true);
    bs := bs.Set(4, true);
    SetsBit(bs.Value(), {4}, 0, true);
    bs := bs.Set(0, true);
    sum := (if Get(bs.Value(), 4) then 1 else 0) + (if Get(bs.Value(), 0) then 1 else 0);
  }

  /** new BitSet(s) for a binary string s without leading zeros prints s again. */
  method StringEcho(s: string) returns (text: Option<string>)
    requires CanonicalLiteral(s, 2)
    ensures text == Some(s)
  {
    BinaryRoundTrip(s);
    var p := BitSet.Parse(s);
    text := ToString(p.value.Value(), 2);
  }

  /** new BitSet("1000000000010000000000000000010001").toString() is that string. */
  method StringSet() returns (text: Option<string>)
    ensures text == Some("1000000000010000000000000000010001")
  {
    text := StringEcho("1000000000010000000000000000010001");
  }

  /** isEmpty() holds for a new object and fails after set(1000). */
  method EmptyChecks() returns (before: bool, after: bool)
    ensures before && !after
  {
    var a := new BitSet();
    before := IsEmpty(a.Value());
    var _ := a.Set(1000, true);
    IsEmptyIsNoBits(a.Value());
    after := IsEmpty(a.Value());
  }

  /** {0, 1} xor {1, 32} is {0, 32}: toArray() is [0, 32] and cardinality() is 2. */
  method SimpleXor() returns (arr: seq<nat>, count: Index)
    ensures arr == [0, 32] && count == Finite(2)
  {
    var bsa := new BitSet();
    ZeroHasNoBits();
    var _ := bsa.Set(0, true);
    var _ := bsa.Set(1, true);
    var bsb := new BitSet();
    var _ := bsb.Set(32, true);
    bsb := bsb.Set(1, true);
    bsa := bsa.Xor(bsb);
    var v := bsa.Value();
    assert forall i: nat :: Get(v, i) == (i == 0 || i == 32);
    ToArrayUnique(v, [0, 32]);
    arr := ToArray(v);
    count := Cardinality(v);
  }

  /** The value with every bit set but bits 0, 1 and 35 prints "...1111011111111111111111111111111111111100". */
  lemma InfinityStringOfBits(v: Bits)
    requires v.sign && forall i: nat :: Get(v, i) == (i != 0 && i != 1 && i != 35)
    ensures ToString(v, 2) == Some("...1111011111111111111111111111111111111100")
  {
    var ones: string := seq(33, _ => '1');
    var t := "0" + ones + "00";
    forall i: nat | i < |t|
      ensures t[|t| - 1 - i] == if Get(v, i) then '1' else '0'
    {
      if 2 <= i < 35 {
        assert t[|t| - 1 - i] == ones[34 - i];
      }
    }
    NegativeStringIff(v, t);
    assert NegativePrefix + t == "...1111011111111111111111111111111111111100";
  }

  /** new BitSet("11").not().set(35, 0) prints "...1111011111111111111111111111111111111100". */
  method InfinityString() returns (text: Option<string>)
    ensures text == Some("...1111011111111111111111111111111111111100")
  {
    var p := BitSet.Parse("11");
    ParseBinaryLiteral("11");
    var x := p.value;
    x := x.Not();
    x := x.Set(35, false);
    var v := x.Value();
    assert forall i: nat :: Get(v, i) == (i != 0 && i != 1 && i != 35);
    InfinityStringOfBits(v);
    text := ToString(v, 2);
  }

  /** A non-negative value with bits {0, 2, 3, 4} prints "11101". */
  lemma ClearedString(v: Bits)
    requires !v.sign && forall i: nat :: Get(v, i) == (i == 0 || i == 2 || i == 3 || i == 4)
    ensures ToString(v, 2) == Some("11101")
  {
    BinaryStringOfBits(v, {0, 2, 3, 4}, "11101");
  }

  /** The bits of "111101": 0 and 2 to 5. */
  lemma LiteralBits111101()
    ensures Parse("111101").Success?
    ensures forall i: nat :: Get(Parse("111101").value, i) == (i <= 5 && i != 1)
  {
    ParseBinaryLiteral("111101");
  }

  /** "111101" with clear(5) prints "11101"; clear() with no index then prints "0". */
  method ClearOne() returns (first: Option<string>, second: Option<string>)
    ensures first == Some("11101") && second == Some("0")
  {
    var p := BitSet.Parse("111101");
    LiteralBits111101();
    var bs := p.value;
    var _ := bs.Clear(5);
    assert forall i: nat :: Get(bs.Value(), i) == (i == 0 || i == 2 || i == 3 || i == 4);
    ClearedString(bs.Value());
    first := ToString(bs.Value(), 2);
    var _ := bs.ClearAll();
    ZeroHasNoBits();
    EmptyString(Zero, 2);
    second := ToString(bs.Value(), 2);
  }
}
