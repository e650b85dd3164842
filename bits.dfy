/**
 * The value a BitSet denotes: a finite list of 32-bit words (least
 * significant first) followed by an infinite tail of copies of the sign bit.
 * Bit i lives in word i / 32 at position i % 32; past the stored words it is
 * the sign. Every query of the source and the pure meaning of every
 * mutating operation are functions of this value.
 */
module BitValue {
  import opened Wrappers
  import opened Words

  datatype Bits = Bits(data: seq<Word>, sign: bool)

  /** The answer of msb() and ntz(): a bit index, or the source's `Infinity`. */
  datatype Index = Finite(n: nat) | Infinity

  /** What `new BitSet()` and `clear()` hold. */
  const Zero: Bits := Bits([0], false)

  /** The word that stands for every word past the stored ones. */
  function Fill(sign: bool): Word
  {
    if sign then Ones else 0
  }

  /** Number of bits held in stored words. */
  function Extent(b: Bits): nat
  {
    WordSize * |b.data|
  }

  /** get(i): the stored bit, or the sign past the stored words. */
  predicate Get(b: Bits, i: nat)
  {
    if i / WordSize < |b.data| then BitOf(b.data[i / WordSize], i % WordSize) else b.sign
  }

  /** Two values with the same bits at every index. */
  ghost predicate SameBits(a: Bits, b: Bits)
  {
    forall i: nat :: Get(a, i) == Get(b, i)
  }

  /** Word k of the sign-extended value, stored or not. */
  function WordAt(b: Bits, k: nat): (w: Word)
    ensures forall j: nat | j < WordSize :: BitOf(w, j) == Get(b, WordSize * k + j)
  {
    forall j: nat | j < WordSize
      ensures BitOf(Fill(b.sign), j) == b.sign
    {
      FillBits(j);
    }
    if k < |b.data| then b.data[k] else Fill(b.sign)
  }

  /** Bit i read through the word that holds it. */
  lemma WordAtBit(b: Bits, i: nat)
    ensures BitOf(WordAt(b, i / WordSize), i % WordSize) == Get(b, i)
  {
    assert WordSize * (i / WordSize) + i % WordSize == i;
  }

  /** `new BitSet(n)` for a number n: its low 32 bits as one unsigned word. */
  function FromNumber(n: int): (b: Bits)
    ensures !b.sign && |b.data| == 1
    ensures forall i: nat :: Get(b, i) == (i < WordSize && BitOf(n % WordBase, i))
  {
    var b := Bits([n % WordBase], false);
    forall i: nat
      ensures Get(b, i) == (i < WordSize && BitOf(n % WordBase, i))
    {
      if i >= WordSize {
        Pow2WordSize();
        BitOfAbove(n % WordBase, WordSize, i);
      }
    }
    b
  }

  // ---------------------------------------------------------------------
  // Equality and emptiness

  /** equals(): the signs agree and so does every word up to the longer length. */
  predicate Equals(a: Bits, b: Bits)
  {
    a.sign == b.sign &&
    forall k: nat | k < Max(|a.data|, |b.data|) :: WordAt(a, k) == WordAt(b, k)
  }

  /** equals() holds exactly when the two values have the same bit at every index. */
  lemma EqualsIsSameBits(a: Bits, b: Bits)
    ensures Equals(a, b) <==> SameBits(a, b)
  {
    var m := Max(|a.data|, |b.data|);
    if Equals(a, b) {
      forall i: nat
        ensures Get(a, i) == Get(b, i)
      {
        WordAtBit(a, i);
        WordAtBit(b, i);
        if i / WordSize >= m {
          assert Get(a, i) == a.sign && Get(b, i) == b.sign;
        }
      }
    }
    if SameBits(a, b) {
      assert Get(a, WordSize * m) == a.sign;
      assert Get(b, WordSize * m) == b.sign;
      forall k: nat | k < m
        ensures WordAt(a, k) == WordAt(b, k)
      {
        Pow2WordSize();
        forall j: nat | j < WordSize
          ensures BitOf(WordAt(a, k), j) == BitOf(WordAt(b, k), j)
        {
          assert Get(a, WordSize * k + j) == Get(b, WordSize * k + j);
        }
        BitExtensionality(WordAt(a, k), WordAt(b, k), WordSize);
      }
    }
  }

  /** The zero value has no bit set, at any index. */
  lemma ZeroHasNoBits()
    ensures forall i: nat :: !Get(Zero, i)
  {
    IsEmptyIsNoBits(Zero);
  }

  /** isEmpty(): non-negative and every stored word is zero. */
  predicate IsEmpty(b: Bits)
  {
    !b.sign && forall k | 0 <= k < |b.data| :: b.data[k] == 0
  }

  /** isEmpty() holds exactly for the value with no bit set. */
  lemma IsEmptyIsNoBits(b: Bits)
    ensures IsEmpty(b) <==> forall i: nat :: !Get(b, i)
  {
    if IsEmpty(b) {
      forall i: nat
        ensures !Get(b, i)
      {
        if i / WordSize < |b.data| {
          FillBits(i % WordSize);
        }
      }
    } else if forall i: nat :: !Get(b, i) {
      assert !Get(b, Extent(b));
      var k :| 0 <= k < |b.data| && b.data[k] != 0;
      Pow2WordSize();
      forall j: nat | j < WordSize
        ensures BitOf(b.data[k], j) == BitOf(0, j)
      {
        FillBits(j);
        assert !Get(b, WordSize * k + j);
      }
      BitExtensionality(b.data[k], 0, WordSize);
      assert false;
    }
  }

  // ---------------------------------------------------------------------
  // Bitwise algebra

  /** not(): every stored word complemented and the sign flipped. */
  function Not(b: Bits): (r: Bits)
    ensures |r.data| == |b.data|
    ensures forall i: nat :: Get(r, i) == !Get(b, i)
  {
    Bits(seq(|b.data|, k requires 0 <= k < |b.data| => Complement(b.data[k])), !b.sign)
  }

  /** Flipping every bit twice gives back the same words and sign. */
  lemma NotNot(b: Bits)
    ensures Not(Not(b)) == b
  {
    assert Not(Not(b)).data == b.data;
  }

  /**
   * and(), or(), xor(): both operands sign-extended to the longer length,
   * combined word by word, and the signs combined with the same operator.
   */
  function Combine(op: Op, a: Bits, b: Bits): (r: Bits)
    ensures |r.data| == Max(|a.data|, |b.data|)
    ensures r.sign == Apply(op, a.sign, b.sign)
    ensures forall i: nat :: Get(r, i) == Apply(op, Get(a, i), Get(b, i))
  {
    var m := Max(|a.data|, |b.data|);
    var r := Bits(seq(m, k requires 0 <= k < m => Words.Combine(op, WordAt(a, k), WordAt(b, k))),
                  Apply(op, a.sign, b.sign));
    forall i: nat
      ensures Get(r, i) == Apply(op, Get(a, i), Get(b, i))
    {
      WordAtBit(a, i);
      WordAtBit(b, i);
    }
    r
  }

  /** The result of and(), or(), xor() does not depend on which operand comes first. */
  lemma {:induction false} CombineCommutes(op: Op, a: Bits, b: Bits)
    ensures Combine(op, a, b) == Combine(op, b, a)
  {
    var r, s := Combine(op, a, b), Combine(op, b, a);
    forall k | 0 <= k < |r.data|
      ensures r.data[k] == s.data[k]
    {
      Words.CombineCommutes(op, WordAt(a, k), WordAt(b, k));
    }
    assert r.data == s.data;
  }

  // ---------------------------------------------------------------------
  // Single bits

  /** `n` copies of one word. */
  function Repeat(w: Word, n: nat): (s: seq<Word>)
    ensures |s| == n && forall k | 0 <= k < n :: s[k] == w
  {
    seq(n, _ => w)
  }

  /** Storage grown to at least n words, new words filled from the sign. */
  function Grow(b: Bits, n: nat): (r: Bits)
    ensures r.sign == b.sign && |r.data| == Max(|b.data|, n)
    ensures forall k | 0 <= k < |b.data| :: r.data[k] == b.data[k]
    ensures SameBits(r, b)
  {
    var r := if n <= |b.data| then b else Bits(b.data + Repeat(Fill(b.sign), n - |b.data|), b.sign);
    forall i: nat
      ensures Get(r, i) == Get(b, i)
    {
      if |b.data| <= i / WordSize < |r.data| {
        FillBits(i % WordSize);
      }
    }
    r
  }

  /** set(i, v): storage grown to hold bit i, then that one bit replaced by v. */
  function WithBit(b: Bits, i: nat, v: bool): (r: Bits)
    ensures r.sign == b.sign && |r.data| == Max(|b.data|, i / WordSize + 1)
    ensures Get(r, i) == v
    ensures forall j: nat | j != i :: Get(r, j) == Get(b, j)
  {
    var g := Grow(b, i / WordSize + 1);
    var k := i / WordSize;
    var r := Bits(g.data[k := Words.WithBit(g.data[k], i % WordSize, v)], b.sign);
    forall j: nat | j != i
      ensures Get(r, j) == Get(b, j)
    {
      assert Get(g, j) == Get(b, j);
      if j / WordSize == k {
        assert j % WordSize != i % WordSize;
      }
    }
    r
  }

  // ---------------------------------------------------------------------
  // Ranges

  /** The number formed by the n bits of b starting at bit s. */
  function Extract(b: Bits, s: nat, n: nat): (w: nat)
    decreases n
    ensures w < Pow2(n)
    ensures forall j: nat | j < n :: BitOf(w, j) == Get(b, s + j)
  {
    if n == 0 then 0
    else
      var low := if Get(b, s) then 1 else 0;
      var rest := Extract(b, s + 1, n - 1);
      assert (low + 2 * rest) / 2 == rest && (low + 2 * rest) % 2 == low;
      low + 2 * rest
  }

  /** Up to one word of b starting at bit s, keeping only the first n bits. */
  function ExtractWord(b: Bits, s: nat, n: nat): (w: Word)
    requires n <= WordSize
    ensures forall j: nat | j < WordSize :: BitOf(w, j) == (j < n && Get(b, s + j))
  {
    var w := Extract(b, s, n);
    Pow2Monotone(n, WordSize);
    Pow2WordSize();
    forall j: nat | n <= j
      ensures !BitOf(w, j)
    {
      BitOfAbove(w, n, j);
    }
    w
  }

  /** slice(start, end): bits start..end, end included, as a non-negative value. */
  function Slice(b: Bits, start: nat, end: nat): (r: Bits)
    ensures !r.sign
    ensures forall j: nat :: Get(r, j) == (start + j <= end && Get(b, start + j))
  {
    var len: nat := if start <= end then end - start + 1 else 0;
    var count: nat := if len == 0 then 1 else (len + WordSize - 1) / WordSize;
    var r := Bits(seq(count, k requires 0 <= k < count =>
                        ExtractWord(b, start + WordSize * k,
                                    if len >= WordSize * k + WordSize then WordSize
                                    else if len > WordSize * k then len - WordSize * k
                                    else 0)),
                  false);
    forall j: nat
      ensures Get(r, j) == (start + j <= end && Get(b, start + j))
    {
      var k := j / WordSize;
      assert j == WordSize * k + j % WordSize;
      if k >= count {
        assert j >= len;
      }
    }
    r
  }

  /** The 32 bits of b from s on, as one word. */
  function FullWord(b: Bits, s: nat): (w: Word)
    ensures forall j: nat | j < WordSize :: BitOf(w, j) == Get(b, s + j)
  {
    ExtractWord(b, s, WordSize)
  }

  /** count whole words of b, word k holding the 32 bits from s + 32 * k on. */
  function WordsFrom(b: Bits, s: nat, count: nat): (ws: seq<Word>)
    ensures |ws| == count
    ensures forall k | 0 <= k < count :: ws[k] == FullWord(b, s + WordSize * k)
  {
    seq(count, (k: nat) => FullWord(b, s + WordSize * k))
  }

  /** Bit m of word k of WordsFrom(b, s, count) is bit s + 32 * k + m of b. */
  lemma WordsFromBit(b: Bits, s: nat, count: nat, k: nat, m: nat)
    requires k < count && m < WordSize
    ensures BitOf(WordsFrom(b, s, count)[k], m) == Get(b, s + WordSize * k + m)
  {
    var w := WordsFrom(b, s, count)[k];
    assert w == FullWord(b, s + WordSize * k);
  }

  /** slice(start): the value shifted right by start bits, sign kept. */
  function SliceFrom(b: Bits, start: nat): (r: Bits)
    ensures r.sign == b.sign
    ensures forall j: nat :: Get(r, j) == Get(b, start + j)
  {
    var q := start / WordSize;
    var count: nat := if |b.data| > q then |b.data| - q else 1;
    var r := Bits(WordsFrom(b, start, count), b.sign);
    forall k, m | 0 <= k < count && 0 <= m < WordSize
      ensures BitOf(r.data[k], m) == Get(b, start + WordSize * k + m)
    {
      WordsFromBit(b, start, count, k, m);
    }
    forall j: nat
      ensures Get(r, j) == Get(b, start + j)
    {
      SliceFromBit(b, start, r, j);
    }
    r
  }

  /** Bit j of a slice from start, built word by word, is bit start + j of the original. */
  lemma SliceFromBit(b: Bits, start: nat, r: Bits, j: nat)
    requires r.sign == b.sign
    requires |r.data| == if |b.data| > start / WordSize then |b.data| - start / WordSize else 1
    requires forall k, m | 0 <= k < |r.data| && 0 <= m < WordSize ::
      BitOf(r.data[k], m) == Get(b, start + WordSize * k + m)
    ensures Get(r, j) == Get(b, start + j)
  {
    var k, m := j / WordSize, j % WordSize;
    if k < |r.data| {
      assert BitOf(r.data[k], m) == Get(b, start + WordSize * k + m);
      assert start + WordSize * k + m == start + j;
    } else {
      assert j == WordSize * k + m;
      ShiftedWord(start, k, m);
      assert (start + j) / WordSize >= |b.data|;
    }
  }

  /** Splitting j as 32 * k + m: start + j lies in word start / 32 + k or later. */
  lemma ShiftedWord(start: nat, k: nat, m: nat)
    requires m < WordSize
    ensures (start + WordSize * k + m) / WordSize >= start / WordSize + k
  {
    var q, r := start / WordSize, start % WordSize;
    assert start + WordSize * k + m == WordSize * (q + k) + (r + m);
  }

  // ---------------------------------------------------------------------
  // Scanners

  /** The highest index below n whose bit equals v. */
  function HighestBelow(b: Bits, n: nat, v: bool): (r: Index)
    ensures r.Finite? ==> r.n < n && Get(b, r.n) == v && forall j: nat | r.n < j < n :: Get(b, j) != v
    ensures r.Infinity? ==> forall j: nat | j < n :: Get(b, j) != v
  {
    if n == 0 then Infinity
    else if Get(b, n - 1) == v then Finite(n - 1)
    else HighestBelow(b, n - 1, v)
  }

  /** The lowest index in lo..hi-1 whose bit equals v. */
  function LowestFrom(b: Bits, lo: nat, hi: nat, v: bool): (r: Index)
    decreases hi - lo
    ensures r.Finite? ==> lo <= r.n < hi && Get(b, r.n) == v && forall j: nat | lo <= j < r.n :: Get(b, j) != v
    ensures r.Infinity? ==> forall j: nat | lo <= j < hi :: Get(b, j) != v
  {
    if lo >= hi then Infinity
    else if Get(b, lo) == v then Finite(lo)
    else LowestFrom(b, lo + 1, hi, v)
  }

  /** msb(): the highest set bit; Infinity for zero and for a negative value. */
  function Msb(b: Bits): (r: Index)
    ensures r.Infinity? <==> b.sign || forall i: nat :: !Get(b, i)
    ensures r.Finite? ==> Get(b, r.n) && forall j: nat | j > r.n :: !Get(b, j)
  {
    if b.sign then Infinity else HighestBelow(b, Extent(b), true)
  }

  /** ntz(): the lowest set bit (number of trailing zeros); Infinity for zero. */
  function Ntz(b: Bits): (r: Index)
    ensures r.Infinity? <==> forall i: nat :: !Get(b, i)
    ensures r.Finite? ==> Get(b, r.n) && forall j: nat | j < r.n :: !Get(b, j)
  {
    match LowestFrom(b, 0, Extent(b), true)
    case Finite(n) => Finite(n)
    case Infinity =>
      assert b.sign ==> Get(b, Extent(b));
      if b.sign then Finite(Extent(b)) else Infinity
  }

  /** The indices in lo..hi-1 whose bit is set, ascending. */
  function SetBitsFrom(b: Bits, lo: nat, hi: nat): (r: seq<nat>)
    decreases hi - lo
    ensures forall k | 0 <= k < |r| :: lo <= r[k] < hi && Get(b, r[k])
    ensures forall x: nat | lo <= x < hi && Get(b, x) :: x in r
    ensures forall k, l | 0 <= k < l < |r| :: r[k] < r[l]
  {
    if lo >= hi then []
    else (if Get(b, lo) then [lo] else []) + SetBitsFrom(b, lo + 1, hi)
  }

  /** toArray(): the indices of the set bits among the stored words, ascending. */
  function ToArray(b: Bits): (r: seq<nat>)
    ensures forall k, l | 0 <= k < l < |r| :: r[k] < r[l]
    ensures forall x: nat :: x in r <==> x < Extent(b) && Get(b, x)
  {
    SetBitsFrom(b, 0, Extent(b))
  }

  /** For a non-negative value, toArray() lists exactly the set bits. */
  lemma ToArrayNonNegative(b: Bits)
    requires !b.sign
    ensures forall x: nat :: x in ToArray(b) <==> Get(b, x)
  {
  }

  /** Number of set bits in lo..hi-1. */
  function CountFrom(b: Bits, lo: nat, hi: nat): nat
    decreases hi - lo
  {
    if lo >= hi then 0
    else (if Get(b, lo) then 1 else 0) + CountFrom(b, lo + 1, hi)
  }

  lemma {:induction false} CountIsLength(b: Bits, lo: nat, hi: nat)
    decreases hi - lo
    ensures CountFrom(b, lo, hi) == |SetBitsFrom(b, lo, hi)|
  {
    if lo < hi {
      CountIsLength(b, lo + 1, hi);
    }
  }

  /** cardinality(): the number of set bits; Infinity for a negative value. */
  function Cardinality(b: Bits): (r: Index)
    ensures r.Infinity? <==> b.sign
    ensures !b.sign ==> r == Finite(|ToArray(b)|)
  {
    CountIsLength(b, 0, Extent(b));
    if b.sign then Infinity else Finite(CountFrom(b, 0, Extent(b)))
  }

  /** cardinality() is 0 exactly for the values isEmpty() accepts. */
  lemma CardinalityZeroIsEmpty(b: Bits)
    ensures Cardinality(b) == Finite(0) <==> IsEmpty(b)
  {
    IsEmptyIsNoBits(b);
    var arr := ToArray(b);
    if arr != [] {
      assert arr[0] in arr;
      assert Get(b, arr[0]);
    } else {
      assert forall i: nat :: Get(b, i) && i < Extent(b) ==> i in arr;
      if !b.sign {
        assert forall i: nat :: i >= Extent(b) ==> !Get(b, i);
      }
    }
  }

  /** Two strictly increasing sequences with the same elements are equal. */
  lemma {:induction false} IncreasingUnique(xs: seq<nat>, ys: seq<nat>)
    requires forall k, l | 0 <= k < l < |xs| :: xs[k] < xs[l]
    requires forall k, l | 0 <= k < l < |ys| :: ys[k] < ys[l]
    requires forall x :: x in xs <==> x in ys
    ensures xs == ys
  {
    assert |xs| > 0 ==> xs[0] in ys;
    assert |ys| > 0 ==> ys[0] in xs;
    if |xs| > 0 && |ys| > 0 {
      assert xs[0] in ys && ys[0] in xs;
      assert xs[0] == ys[0];
      forall x
        ensures x in xs[1..] <==> x in ys[1..]
      {
        assert x in xs[1..] <==> x in xs && x != xs[0];
        assert x in ys[1..] <==> x in ys && x != ys[0];
      }
      IncreasingUnique(xs[1..], ys[1..]);
      assert xs == [xs[0]] + xs[1..] && ys == [ys[0]] + ys[1..];
    }
  }

  /** toArray() is the one strictly increasing list of the set bits in the stored words. */
  lemma ToArrayUnique(b: Bits, xs: seq<nat>)
    requires forall k, l | 0 <= k < l < |xs| :: xs[k] < xs[l]
    requires forall x: nat :: x in xs <==> x < Extent(b) && Get(b, x)
    ensures ToArray(b) == xs
  {
    IncreasingUnique(ToArray(b), xs);
  }
}
