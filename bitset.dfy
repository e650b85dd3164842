/**
 * The BitSet object: a growable list of 32-bit words and a sign flag, updated
 * in place by set, clear, not, and, or and xor, each of which returns the
 * receiver so that calls can be chained. Queries are the functions of module
 * BitValue applied to Value().
 */
module BitSets {
  import opened Wrappers
  import opened Words
  import opened BitValue
  import Text

  class BitSet {
    /** Stored words, least significant first. */
    var data: seq<Word>
    /** Whether every bit past the stored words is 1. */
    var sign: bool

    /** The value this object denotes. */
    function Value(): Bits
      reads this
    {
      Bits(data, sign)
    }

    /** `new BitSet()`: the zero value. */
    constructor ()
      ensures Value() == Zero
    {
      data := [0];
      sign := false;
    }

    /** `new BitSet(n)` for a number: its low 32 bits as one unsigned word. */
    constructor FromNumber(n: int)
      ensures Value() == BitValue.FromNumber(n)
    {
      data := [n % WordBase];
      sign := false;
    }

    /** An object holding a given value (used by parsing and cloning). */
    constructor FromBits(v: Bits)
      ensures Value() == v
    {
      data := v.data;
      sign := v.sign;
    }

    /** `new BitSet(s)` for a string literal; fails with InvalidFormat on a character that is not a digit of its radix. */
    static method Parse(s: string) returns (r: Result<BitSet, Text.Error>)
      ensures Text.Parse(s).Failure? ==> r == Failure(Text.Parse(s).error)
      ensures Text.Parse(s).Success? ==> r.Success? && fresh(r.value) && r.value.Value() == Text.Parse(s).value
    {
      var parsed := Text.Parse(s);
      if parsed.Failure? {
        r := Failure(parsed.error);
      } else {
        var bs := new BitSet.FromBits(parsed.value);
        r := Success(bs);
      }
    }

    /** clone(): a fresh object with the same words and sign. */
    method Clone() returns (c: BitSet)
      ensures fresh(c) && c.Value() == Value()
    {
      c := new BitSet.FromBits(Value());
    }

    /** set(i, v): grows the storage to hold bit i, filling from the sign, then writes v there. */
    method Set(i: nat, v: bool) returns (self: BitSet)
      modifies this
      ensures self == this
      ensures Value() == BitValue.WithBit(old(Value()), i, v)
    {
      var k := i / WordSize;
      var fill := Fill(sign);
      while |data| <= k
        invariant |data| >= |old(data)| && |data| <= Max(|old(data)|, k + 1)
        invariant data == old(data) + Repeat(fill, |data| - |old(data)|)
        invariant sign == old(sign)
        decreases k + 1 - |data|
      {
        data := data + [fill];
      }
      data := data[k := Words.WithBit(data[k], i % WordSize, v)];
      self := this;
    }

    /** clear(i): set(i, 0). */
    method Clear(i: nat) returns (self: BitSet)
      modifies this
      ensures self == this
      ensures Value() == BitValue.WithBit(old(Value()), i, false)
    {
      self := Set(i, false);
    }

    /** clear() without an index: back to the zero value, storage discarded. */
    method ClearAll() returns (self: BitSet)
      modifies this
      ensures self == this
      ensures Value() == Zero
    {
      data := [0];
      sign := false;
      self := this;
    }

    /** not(): complements every stored word and flips the sign. */
    method Not() returns (self: BitSet)
      modifies this
      ensures self == this
      ensures Value() == BitValue.Not(old(Value()))
    {
      var k := 0;
      while k < |data|
        invariant 0 <= k <= |data| == |old(data)|
        invariant forall j | 0 <= j < k :: data[j] == Complement(old(data)[j])
        invariant forall j | k <= j < |data| :: data[j] == old(data)[j]
        invariant sign == old(sign)
      {
        data := data[k := Complement(data[k])];
        k := k + 1;
      }
      sign := !sign;
      assert data == BitValue.Not(old(Value())).data;
      self := this;
    }

    /**
     * The shared body of and(), or() and xor(): grow to the operand's length,
     * combine word by word with the operand's sign-extended words, then
     * combine the signs.
     */
    method CombineWith(op: Op, other: BitSet)
      modifies this
      ensures Value() == BitValue.Combine(op, old(Value()), old(other.Value()))
    {
      var a, b := Value(), other.Value();
      while |data| < |b.data|
        invariant |data| >= |a.data| && |data| <= Max(|a.data|, |b.data|)
        invariant data == a.data + Repeat(Fill(a.sign), |data| - |a.data|)
        invariant sign == a.sign
        decreases |b.data| - |data|
      {
        data := data + [Fill(sign)];
      }
      var k := 0;
      while k < |data|
        invariant 0 <= k <= |data| && |data| == Max(|a.data|, |b.data|)
        invariant sign == a.sign
        invariant forall j | 0 <= j < k :: data[j] == Words.Combine(op, WordAt(a, j), WordAt(b, j))
        invariant forall j | k <= j < |data| :: data[j] == WordAt(a, j)
      {
        data := data[k := Words.Combine(op, data[k], WordAt(b, k))];
        k := k + 1;
      }
      sign := Apply(op, sign, b.sign);
      assert data == BitValue.Combine(op, a, b).data;
    }

    /** and(other): this &= other, in place; the operand is left as it was. */
    method And(other: BitSet) returns (self: BitSet)
      modifies this
      ensures self == this
      ensures Value() == BitValue.Combine(AndOp, old(Value()), old(other.Value()))
      ensures other != this ==> unchanged(other)
    {
      CombineWith(AndOp, other);
      self := this;
    }

    /** or(other): this |= other, in place; the operand is left as it was. */
    method Or(other: BitSet) returns (self: BitSet)
      modifies this
      ensures self == this
      ensures Value() == BitValue.Combine(OrOp, old(Value()), old(other.Value()))
      ensures other != this ==> unchanged(other)
    {
      CombineWith(OrOp, other);
      self := this;
    }

    /** xor(other): this ^= other, in place; the operand is left as it was. */
    method Xor(other: BitSet) returns (self: BitSet)
      modifies this
      ensures self == this
      ensures Value() == BitValue.Combine(XorOp, old(Value()), old(other.Value()))
      ensures other != this ==> unchanged(other)
    {
      CombineWith(XorOp, other);
      self := this;
    }
  }
}
