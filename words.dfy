/**
 * 32-bit storage words of a BitSet, modelled as natural numbers below 2^32.
 * Bit k of a number is read by halving k times; the bitwise operators
 * `&`, `|`, `^` and `~` of the source are defined bit by bit on top of that.
 */
module Words {

  /** Number of bits per storage word. */
  const WordSize: nat := 32
  /** 2^32: one more than the largest word. */
  const WordBase: nat := 0x1_0000_0000
  /** The all-ones word (every bit set), the storage form of `~0`. */
  const Ones: nat := 0xFFFF_FFFF

  type Word = x: nat | x < WordBase

  function Pow2(n: nat): (r: nat)
    ensures r >= 1
  {
    if n == 0 then 1 else 2 * Pow2(n - 1)
  }

  lemma Pow2WordSize()
    ensures Pow2(WordSize) == WordBase
  {
    assert Pow2(8) == 256;
    Pow2Add(8, 8);
    Pow2Add(16, 16);
  }

  lemma {:induction false} Pow2Add(a: nat, b: nat)
    ensures Pow2(a + b) == Pow2(a) * Pow2(b)
  {
    if a > 0 {
      Pow2Add(a - 1, b);
    }
  }

  lemma {:induction false} Pow2Monotone(a: nat, b: nat)
    requires a <= b
    ensures Pow2(a) <= Pow2(b)
  {
    if a < b {
      Pow2Monotone(a, b - 1);
    }
  }

  /** Bit `k` of `x` (bit 0 is the least significant). */
  predicate BitOf(x: nat, k: nat)
    decreases k
  {
    if k == 0 then x % 2 == 1 else BitOf(x / 2, k - 1)
  }

  /** A number below 2^n has no bit set at or above position n. */
  lemma {:induction false} BitOfAbove(x: nat, n: nat, k: nat)
    requires x < Pow2(n) && n <= k
    ensures !BitOf(x, k)
  {
    if k > 0 {
      BitOfAbove(x / 2, if n == 0 then 0 else n - 1, k - 1);
    }
  }

  /** The bits of lo + 2^n * hi are those of lo below n and those of hi from n on. */
  lemma {:induction false} BitOfSplit(lo: nat, hi: nat, n: nat, i: nat)
    requires lo < Pow2(n)
    ensures BitOf(lo + Pow2(n) * hi, i) == if i < n then BitOf(lo, i) else BitOf(hi, i - n)
  {
    if n > 0 {
      var m := Pow2(n - 1) * hi;
      assert Pow2(n) * hi == 2 * m;
      var x := lo + 2 * m;
      assert x % 2 == lo % 2 && x / 2 == lo / 2 + m;
      if i > 0 {
        BitOfSplit(lo / 2, hi, n - 1, i - 1);
      }
    }
  }

  /** Two numbers below 2^n that agree on their n low bits are equal. */
  lemma {:induction false} BitExtensionality(x: nat, y: nat, n: nat)
    requires x < Pow2(n) && y < Pow2(n)
    requires forall k: nat | k < n :: BitOf(x, k) == BitOf(y, k)
    ensures x == y
  {
    if n > 0 {
      forall k: nat | k < n - 1
        ensures BitOf(x / 2, k) == BitOf(y / 2, k)
      {
        assert BitOf(x, k + 1) == BitOf(y, k + 1);
      }
      BitExtensionality(x / 2, y / 2, n - 1);
      assert BitOf(x, 0) == BitOf(y, 0);
    }
  }

  /** Every number is below 2 to its own power, so it has finitely many bits. */
  lemma {:induction false} BelowPow2(x: nat)
    ensures x < Pow2(x)
  {
    if x > 0 {
      BelowPow2(x - 1);
    }
  }

  /** A number with no bit set at or above position n is below 2^n (the converse of BitOfAbove). */
  lemma {:induction false} BelowByBits(x: nat, n: nat)
    requires forall k: nat | k >= n :: !BitOf(x, k)
    ensures x < Pow2(n)
    decreases x
  {
    assert n == 0 ==> x % 2 == 0 by {
      if n == 0 {
        assert !BitOf(x, 0);
      }
    }
    if x > 0 {
      var m := if n == 0 then 0 else n - 1;
      forall k: nat | k >= m
        ensures !BitOf(x / 2, k)
      {
        assert BitOf(x, k + 1) == BitOf(x / 2, k);
      }
      BelowByBits(x / 2, m);
    }
  }

  /** Two numbers with the same bit at every position are equal. */
  lemma NatExtensionality(x: nat, y: nat)
    requires forall k: nat :: BitOf(x, k) == BitOf(y, k)
    ensures x == y
  {
    var n := if x <= y then y else x;
    BelowPow2(x);
    BelowPow2(y);
    Pow2Monotone(x, n);
    Pow2Monotone(y, n);
    BitExtensionality(x, y, n);
  }

  /** Bit k of 2^n - 1 - x is the complement of bit k of x, for x < 2^n and k < n. */
  lemma {:induction false} ComplementBit(x: nat, n: nat, k: nat)
    requires x < Pow2(n) && k < n
    ensures BitOf(Pow2(n) - 1 - x, k) == !BitOf(x, k)
  {
    var p := Pow2(n - 1);
    assert Pow2(n) - 1 - x == 2 * (p - 1 - x / 2) + (1 - x % 2);
    if k > 0 {
      ComplementBit(x / 2, n - 1, k - 1);
    }
  }

  /** 2^n has exactly bit n set. */
  lemma {:induction false} Pow2Bit(n: nat, k: nat)
    ensures BitOf(Pow2(n), k) == (k == n)
  {
    if k == 0 {
    } else if n == 0 {
      BitOfAbove(0, 0, k - 1);
    } else {
      Pow2Bit(n - 1, k - 1);
    }
  }

  /** The three binary bitwise operators of the source. */
  datatype Op = AndOp | OrOp | XorOp

  /** What an operator does to one pair of bits. */
  function Apply(op: Op, a: bool, b: bool): bool
  {
    match op
    case AndOp => a && b
    case OrOp => a || b
    case XorOp => a != b
  }

  /** The n-bit result of combining x and y bit by bit with `op`. */
  function Bitwise(op: Op, x: nat, y: nat, n: nat): (r: nat)
    ensures r < Pow2(n)
    ensures forall k: nat | k < n :: BitOf(r, k) == Apply(op, BitOf(x, k), BitOf(y, k))
  {
    if n == 0 then 0
    else
      var low := if Apply(op, x % 2 == 1, y % 2 == 1) then 1 else 0;
      var rest := Bitwise(op, x / 2, y / 2, n - 1);
      assert (low + 2 * rest) / 2 == rest && (low + 2 * rest) % 2 == low;
      low + 2 * rest
  }

  /** `x op y` on two words (the source's `&`, `|`, `^` on 32-bit operands). */
  function Combine(op: Op, x: Word, y: Word): (r: Word)
    ensures forall k: nat | k < WordSize :: BitOf(r, k) == Apply(op, BitOf(x, k), BitOf(y, k))
  {
    Pow2WordSize();
    Bitwise(op, x, y, WordSize)
  }

  /** Combining two words does not depend on their order. */
  lemma CombineCommutes(op: Op, x: Word, y: Word)
    ensures Combine(op, x, y) == Combine(op, y, x)
  {
    Pow2WordSize();
    BitExtensionality(Combine(op, x, y), Combine(op, y, x), WordSize);
  }

  /** Or-ing two numbers with no bit in common adds them: no position carries. */
  lemma {:induction false} BitwiseOrDisjoint(x: nat, y: nat, n: nat)
    requires x < Pow2(n) && y < Pow2(n)
    requires forall k: nat | k < n :: !(BitOf(x, k) && BitOf(y, k))
    ensures Bitwise(OrOp, x, y, n) == x + y
  {
    if n > 0 {
      assert !(BitOf(x, 0) && BitOf(y, 0));
      forall k: nat | k < n - 1
        ensures !(BitOf(x / 2, k) && BitOf(y / 2, k))
      {
        assert BitOf(x, k + 1) == BitOf(x / 2, k);
        assert BitOf(y, k + 1) == BitOf(y / 2, k);
      }
      BitwiseOrDisjoint(x / 2, y / 2, n - 1);
    }
  }

  /** `x | y` on two words with no common bit is x + y. */
  lemma CombineOrDisjoint(x: Word, y: Word)
    requires forall k: nat | k < WordSize :: !(BitOf(x, k) && BitOf(y, k))
    ensures Combine(OrOp, x, y) == x + y
  {
    Pow2WordSize();
    BitwiseOrDisjoint(x, y, WordSize);
  }

  /** `x & y` is below 2^n when y is: the and clears every bit y does not have. */
  lemma AndBelow(x: Word, y: Word, n: nat)
    requires n <= WordSize && y < Pow2(n)
    ensures Combine(AndOp, x, y) < Pow2(n)
  {
    var r := Combine(AndOp, x, y);
    forall k: nat | k >= n
      ensures !BitOf(r, k)
    {
      if k < WordSize {
        BitOfAbove(y, n, k);
      } else {
        Pow2WordSize();
        BitOfAbove(r, WordSize, k);
      }
    }
    BelowByBits(r, n);
  }

  /** `~w`, read as an unsigned word. */
  function Complement(w: Word): (r: Word)
    ensures forall k: nat | k < WordSize :: BitOf(r, k) == !BitOf(w, k)
  {
    Pow2WordSize();
    forall k: nat | k < WordSize
      ensures BitOf(Ones - w, k) == !BitOf(w, k)
    {
      ComplementBit(w, WordSize, k);
    }
    Ones - w
  }

  /** Every bit of the all-ones word is set, and none of the zero word. */
  lemma FillBits(k: nat)
    requires k < WordSize
    ensures BitOf(Ones, k) && !BitOf(0, k)
  {
    Pow2WordSize();
    ComplementBit(0, WordSize, k);
    BitOfAbove(0, 0, k);
  }

  /** `1 << k` for a bit position inside a word. */
  function Mask(k: nat): (r: Word)
    requires k < WordSize
    ensures forall j: nat :: BitOf(r, j) == (j == k)
  {
    Pow2Monotone(k + 1, WordSize);
    Pow2WordSize();
    forall j: nat
      ensures BitOf(Pow2(k), j) == (j == k)
    {
      Pow2Bit(k, j);
    }
    Pow2(k)
  }

  /** `w | (1 << k)` when v holds, `w & ~(1 << k)` otherwise. */
  function WithBit(w: Word, k: nat, v: bool): (r: Word)
    requires k < WordSize
    ensures forall j: nat | j < WordSize :: BitOf(r, j) == if j == k then v else BitOf(w, j)
  {
    if v then Combine(OrOp, w, Mask(k)) else Combine(AndOp, w, Complement(Mask(k)))
  }
}
