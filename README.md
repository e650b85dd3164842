# BitSet.js, modelled in Dafny

BitSet.js is an arbitrary-width bit vector for JavaScript. A BitSet object
holds a growable list of 32-bit words and a sign flag. Bit `i` lives in word
`i / 32` at position `i % 32`. Every bit beyond the stored words equals the
sign, so a value is either finite (sign 0) or has an infinite tail of ones
(sign 1), as in two's complement. `set`, `clear`, `not`, `and`, `or` and `xor`
change the object in place and return it, so calls chain. `get`, `msb`, `ntz`,
`cardinality`, `isEmpty`, `toArray`, `equals`, `slice` and `toString` read it.

The behaviour is pinned down by the repository's test suite,
`tests/bitset.test.js`, which is what the rows below cite. The project has
seven files:

- `wrappers.dfy` (module `Wrappers`): `Option`, `Result`, `Max`.
- `words.dfy` (module `Words`): 32-bit words as numbers below 2^32.
  - Bit `k` of a number is defined by halving.
  - `and`/`or`/`xor` are defined per bit, complement per word, and writing
    one bit into a word.
- `bits.dfy` (module `BitValue`): the value a BitSet denotes.
  - `Bits(data, sign)` is read through `Get(b, i)`, which gives the stored
    bit, or the sign past the stored words.
  - Every query and the value of every mutator are defined here, each with
    per-bit contracts.
- `radix.dfy` (module `Radix`): digits in a radix and their round trips.
  - Little-endian words as one number.
  - The bits of binary and hexadecimal digit strings.
- `text.dfy` (module `Text`): reading literals and formatting.
  - `new BitSet(string)`: hexadecimal after `0x`, binary otherwise.
  - `toString(radix)` for non-negative values in any radix from 2 to 36.
  - `toString(2)` for negative values: `"...1111"` followed by the bits from
    the highest clear bit down to bit 0.
- `bitset.dfy` (module `BitSets`): class `BitSet`, whose fields `data` and
  `sign` are updated in place.
  - Each mutator is a method proved against the `BitValue` function it
    implements. `set` (growing the storage), `not` and `and`/`or`/`xor`
    work with loops; `clear(i)` calls `set(i, 0)` and `clear()` resets
    the fields.
- `scenarios.dfy` (module `Scenarios`): the test cases, replayed.
  - Each one drives `BitSet` objects as its test does or, where the test
    only constructs and queries, states the test's assertion about the
    value that `BitSet.FromNumber` or `BitSet.Parse` is proved to build.
    Its contract is what the test asserts.
  - They rest on general lemmas about literals, strings and sets of bits.

`get` answers a `bool` where the library answers `0`/`1`. `msb`, `ntz` and
`cardinality` answer `Index`: `Finite(n)`, or `Infinity` for the library's
`Infinity`. `toString()` without a radix is `ToString(v, 2)`.

## Model

| member | source | states |
|---|---|---|
| Words.Bitwise | tests/bitset.test.js:72-89 | the n-bit and/or/xor of two numbers is below 2^n and each of its bits is the operator applied to the operands' bits |
| Words.Combine | tests/bitset.test.js:383-406 | a 32-bit word operation: bit k of the result is the boolean operator on bit k of each word, as the native `&`, `|`, `^` |
| Words.CombineCommutes | tests/bitset.test.js:273-301 | and/or/xor on words do not depend on operand order |
| Words.BitwiseOrDisjoint | tests/bitset.test.js:79-83 | or-ing numbers with no common bit adds them |
| Words.CombineOrDisjoint | tests/bitset.test.js:79-83 | `x \| y == x + y` for 32-bit words with no common bit |
| Words.BelowByBits | tests/bitset.test.js:390 | a number with no bit set at or above n is below 2^n |
| Words.AndBelow | tests/bitset.test.js:398-400 | `x & y` is below 2^n whenever y is |
| Words.Complement | tests/bitset.test.js:123-129 | `~w` on a word flips each of its 32 bits |
| Words.WithBit | tests/bitset.test.js:21-25 | writing v at position k of a word sets that bit to v and keeps the other 31 |
| BitValue.WordAtBit | tests/bitset.test.js:379 | bit i is bit i % 32 of word i / 32 of the sign-extended words |
| BitValue.FromNumber | tests/bitset.test.js:17-18 | `new BitSet(n)` is one non-negative word holding the low 32 bits of n, so -1 gives 32 ones and nothing above |
| BitValue.Get | tests/bitset.test.js:349-356 | get(i) is bit i % 32 of word i / 32, or the sign past the stored words |
| BitValue.Equals | tests/bitset.test.js:91-98 | equals(): the signs agree and so does every word up to the longer length, each operand sign-extended |
| BitValue.EqualsIsSameBits | tests/bitset.test.js:415-435 | equals() holds exactly when the two values agree at every bit index, whatever their stored lengths |
| BitValue.ZeroHasNoBits | tests/bitset.test.js:33-36 | `new BitSet()` has no bit set |
| BitValue.IsEmpty | tests/bitset.test.js:358-366 | isEmpty(): non-negative and every stored word is 0 |
| BitValue.IsEmptyIsNoBits | tests/bitset.test.js:358-366 | isEmpty() holds exactly when no bit is set |
| BitValue.Not | tests/bitset.test.js:123-140 | not() keeps the word count and flips every bit, the infinite tail included |
| BitValue.NotNot | tests/bitset.test.js:368-375 | not() twice restores the same words and sign |
| BitValue.Combine | tests/bitset.test.js:175-231 | and/or/xor: the length is the longer operand's, the sign is op of the signs, and every bit is op of the operands' bits |
| BitValue.CombineCommutes | tests/bitset.test.js:273-301 | and/or/xor give the same words and sign in either operand order, even for different lengths |
| BitValue.Grow | tests/bitset.test.js:252-261 | growing the storage to n words keeps the sign and every stored word and changes no bit |
| BitValue.WithBit | tests/bitset.test.js:153-173 | set(i, v) makes bit i equal v, changes no other bit, keeps the sign and grows to exactly i / 32 + 1 words when shorter |
| BitValue.Slice | tests/bitset.test.js:60-70 | slice(s, e) is non-negative and its bit j is bit s + j of the source for s + j <= e (end included), 0 above |
| BitValue.SliceFrom | tests/bitset.test.js:131 | slice(s) keeps the sign and its bit j is bit s + j of the source |
| BitValue.Msb | tests/bitset.test.js:27-36 | msb() is Infinity exactly for zero and for negative values; otherwise it is a set bit with no set bit above it |
| BitValue.Ntz | tests/bitset.test.js:142-151 | ntz() is Infinity exactly when no bit is set; otherwise it is a set bit with no set bit below it |
| BitValue.ToArray | tests/bitset.test.js:346 | toArray() is strictly ascending and holds exactly the set bits inside the stored words |
| BitValue.ToArrayNonNegative | tests/bitset.test.js:380 | for a non-negative value toArray() holds exactly the set bits |
| BitValue.ToArrayUnique | tests/bitset.test.js:380 | toArray() is the only strictly ascending list of those bits |
| BitValue.Cardinality | tests/bitset.test.js:100-104 | cardinality() is Infinity exactly for negative values, otherwise the length of toArray() |
| BitValue.CardinalityZeroIsEmpty | tests/bitset.test.js:185 | cardinality() is 0 exactly when isEmpty() holds |
| Radix.DigitCharRoundTrip | tests/bitset.test.js:45-58 | the digit read from a digit's character is that digit; writing the digit read from a character gives it in lower case |
| Radix.ToDigits | tests/bitset.test.js:11-12 | the digits toString(radix) writes have no leading zero and each is below the radix |
| Radix.FromToDigits | tests/bitset.test.js:11-15 | the digits of n, read back, are n |
| Radix.ToFromDigits | tests/bitset.test.js:45-58 | digits without a leading zero, read as a number and written again, are the same digits |
| Radix.BinaryDigitsAreBits | tests/bitset.test.js:404 | the binary digits of n are its bits, highest set bit first, with no bit beyond them |
| Radix.FromBinaryDigitsBits | tests/bitset.test.js:87-88 | bit i of the number a binary digit string denotes is its i-th digit from the right |
| Radix.FromHexDigitsBits | tests/bitset.test.js:74-75 | bit i of the number a hex digit string denotes is bit i % 4 of digit i / 4 from the right |
| Radix.HexDigitsBound | tests/bitset.test.js:68-69 | n hex digits denote a number below 2^(4n) |
| Radix.WordsToNatZero | tests/bitset.test.js:441-442 | all-zero words hold the number 0 |
| Radix.WordsOfNatRoundTrip | tests/bitset.test.js:45-58 | splitting a number into 32-bit words and joining them gives it back |
| Radix.BitOfWordsToNat | tests/bitset.test.js:379 | bit i of the number held by words is bit i % 32 of word i / 32 |
| Text.ParseDigits | tests/bitset.test.js:45-58 | the digits of a string are read exactly when every character is a digit of the radix, one digit per character |
| Text.Parse | tests/bitset.test.js:87-98 | `new BitSet(s)` fails with InvalidFormat exactly when a character is not a digit of the literal's radix; otherwise the value is non-negative and holds the number the digits denote |
| Text.EmptyLiteral | tests/bitset.test.js:14-15 | a literal without digits, "" or "0x", reads as zero, like `new BitSet()` |
| Text.ParseBinaryLiteral | tests/bitset.test.js:93-97 | bit i of a parsed binary literal is its i-th character from the right, 0 past it |
| Text.HexLiteralBit | tests/bitset.test.js:74-75 | bit 4n + m of a parsed hex literal is bit m of its n-th digit from the right, 0 past it |
| Text.HexLiteralWidth | tests/bitset.test.js:68-69 | a parsed hex literal of n digits has no bit at or above 4n |
| Text.BitChars | tests/bitset.test.js:129 | n characters, the i-th from the right being '1' exactly when bit i is set |
| Text.ToString | tests/bitset.test.js:12-18 | toString(radix) gives a string for every non-negative value, and for a negative one only in radix 2 |
| Text.EmptyString | tests/bitset.test.js:14-15 | a non-negative value with no bit set prints "0" in every radix |
| Text.SameBitsSameString | tests/bitset.test.js:421-427 | non-negative values with the same bits print the same, however many words they store |
| Text.BinaryStringIsBits | tests/bitset.test.js:163-166 | toString(2) of a non-negative value lists its bits from the highest set one down, with no bit set beyond |
| Text.BinaryStringIff | tests/bitset.test.js:200-201 | toString(2) of a non-negative value is s exactly when s is its binary writing |
| Text.NegativeBinaryString | tests/bitset.test.js:129 | toString(2) of a negative value is "...1111" followed by its tail of bits |
| Text.NegativeStringIff | tests/bitset.test.js:408-413 | toString(2) of a negative value is "...1111" + t exactly when t is its tail: bits from the highest clear bit down, all bits above set |
| Text.FormatParsedDigits | tests/bitset.test.js:45-58 | parsing digits without a leading zero and writing them in the same radix gives them in lower case |
| Text.HexRoundTrip | tests/bitset.test.js:45-58 | a hex literal of any length without leading zeros, written back with toString(16), gives its digits in lower case |
| Text.BinaryRoundTrip | tests/bitset.test.js:245-250 | a binary literal without leading zeros, written back with toString(2), is the same string |
| Text.ParseFormatRoundTrip | tests/bitset.test.js:45-58 | writing a non-negative value in hex or binary and parsing it gives back the same bits |
| BitSets.BitSet.constructor | tests/bitset.test.js:14-15 | `new BitSet()` holds zero |
| BitSets.BitSet.FromNumber | tests/bitset.test.js:17-18 | `new BitSet(n)` holds the low 32 bits of n as one non-negative word |
| BitSets.BitSet.Parse | tests/bitset.test.js:47-48 | `new BitSet(s)` gives a fresh object holding the parsed value, or the parse error |
| BitSets.BitSet.Clone | tests/bitset.test.js:280 | clone() is a fresh object with the same value |
| BitSets.BitSet.Set | tests/bitset.test.js:252-261 | set(i, v) updates the receiver in place and returns it; its new value is the old one with bit i equal to v (BitValue.WithBit) |
| BitSets.BitSet.Clear | tests/bitset.test.js:38-43 | clear(i) is set(i, 0) and returns the receiver |
| BitSets.BitSet.ClearAll | tests/bitset.test.js:441-442 | clear() with no index resets the receiver to zero |
| BitSets.BitSet.Not | tests/bitset.test.js:123-127 | not() complements every stored word in place, flips the sign and returns the receiver |
| BitSets.BitSet.CombineWith | tests/bitset.test.js:72-89 | the shared loop of and/or/xor: the receiver's new value is the op of its old value and the operand's (BitValue.Combine) |
| BitSets.BitSet.And | tests/bitset.test.js:175-202 | and() updates the receiver to the and of both values, returns it and leaves a distinct operand unchanged |
| BitSets.BitSet.Or | tests/bitset.test.js:204-231 | or() updates the receiver to the or of both values, returns it and leaves a distinct operand unchanged |
| BitSets.BitSet.Xor | tests/bitset.test.js:332-347 | xor() updates the receiver to the xor of both values, returns it and leaves a distinct operand unchanged |
| Scenarios.BinaryStringOfBits | tests/bitset.test.js:245-250 | a non-negative value whose set bits are exactly the '1' positions of a binary literal starting with '1' prints that literal |
| Scenarios.SetsBit | tests/bitset.test.js:153-173 | on a value whose set bits are S, set(i, v) gives S with i added or removed |
| Scenarios.CombinesBits | tests/bitset.test.js:175-231 | and/or/xor of values with bit sets A and B have bit sets A ∩ B, A ∪ B and the symmetric difference |
| Scenarios.MsbOfBits | tests/bitset.test.js:168-172 | msb() of a non-negative value is the largest index in its set of bits |
| Scenarios.SetGetClear | tests/bitset.test.js:21-43 | a new object has no bit and msb() Infinity; set(31) gives get(31) 1 and msb() 31; clear(31) gives get(31) 0 |
| Scenarios.SetAutoScale | tests/bitset.test.js:252-261 | after set(512), get(511) and get(513) are 0 and get(512) is 1; under the model's exact growth policy the storage is 17 words |
| Scenarios.MsbAfterChainedSets | tests/bitset.test.js:112-121 | set(100).set(333) gives msb() 333 |
| Scenarios.Bit32String | tests/bitset.test.js:201 | bit 32 alone prints "1" followed by 32 zeros |
| Scenarios.Bits0And32String | tests/bitset.test.js:229 | bits 0 and 32 print "1", 31 zeros, "1" |
| Scenarios.StringAndResults | tests/bitset.test.js:185-201 | after the and: cardinalities 0 and 1, strings "0" and "1" followed by 32 zeros |
| Scenarios.StringAnd | tests/bitset.test.js:175-202 | {0}.and({32}) leaves no bit, the operand keeps {32}; counts and strings as asserted |
| Scenarios.StringOrResults | tests/bitset.test.js:214-230 | after the or: cardinalities 2 and 1 and the two strings asserted |
| Scenarios.StringOr | tests/bitset.test.js:204-231 | {0}.or({32}) gives {0, 32}, the operand keeps {32}; counts and strings as asserted |
| Scenarios.BothOrders | tests/bitset.test.js:280-300 | `x.clone().and(y)`, `.or(y)` or `.xor(y)` prints the same as `y.clone()` combined with x the same way |
| Scenarios.DifferentLengths | tests/bitset.test.js:273-301 | with bits 1 and 50, and/or/xor print the same in either order |
| Scenarios.SelfXor | tests/bitset.test.js:303-311 | when a and b are one object, a.xor(b) and b.xor(a) both print "0" |
| Scenarios.NineString | tests/bitset.test.js:88 | bits 0 and 3 print "1001" |
| Scenarios.XorOperandBits | tests/bitset.test.js:87-88 | "1010" has bits 1 and 3; "0011" has bits 0 and 1 |
| Scenarios.XorOfLiterals | tests/bitset.test.js:85-89 | `new BitSet("1010").xor("0011")` prints "1001" |
| Scenarios.SetChainFirstString | tests/bitset.test.js:163 | bits {0, 4, 22, 33} print "1000000000010000000000000000010001" |
| Scenarios.SetChainSecondString | tests/bitset.test.js:166 | bits {0, 4, 22} print "10000000000000000010001" |
| Scenarios.SetFour | tests/bitset.test.js:155-161 | set(4, 1).set(0).set(22, 1).set(33, 1) gives the bits {0, 4, 22, 33} |
| Scenarios.ResetThenGrow | tests/bitset.test.js:165-172 | set(33, 0) prints "10000000000000000010001" with msb() 22; set(330, 1) then gives msb() 330 |
| Scenarios.SetChain | tests/bitset.test.js:153-173 | the whole chain: both strings and both msb() answers |
| Scenarios.InvertedZero | tests/bitset.test.js:313-319 | not() of zero prints "...1111"; get(2000) is 1 and msb() and cardinality() are Infinity (lines 136-140, 349-356) |
| Scenarios.LowByteBits | tests/bitset.test.js:327 | 0xff has exactly its 8 lowest bits set |
| Scenarios.LowByteString | tests/bitset.test.js:329 | bits 0 to 7 print "11111111" |
| Scenarios.CutOffInfinity | tests/bitset.test.js:321-330 | not() then and(0xff) is non-negative with exactly bits 0 to 7 and prints "11111111" |
| Scenarios.InvertingArray | tests/bitset.test.js:378-380 | bits {4, 8, 32, 65} give toArray() [4, 8, 32, 65] and cardinality() 4 |
| Scenarios.WordOfBits | tests/bitset.test.js:379 | word k of a value is w when w's 32 bits are the value's bits 32k to 32k + 31 |
| Scenarios.InvertingWordBits | tests/bitset.test.js:379 | the bits of 272 are 4 and 8, of 1 bit 0, of 2 bit 1 |
| Scenarios.InvertingWords | tests/bitset.test.js:379 | a value with exactly bits {4, 8, 32, 65} in three words stores [272, 1, 2] |
| Scenarios.Inverting | tests/bitset.test.js:368-381 | set(4), set(32), not(), set(65, 0), not(), set(8, 1) leave exactly {4, 8, 32, 65} in the words [272, 1, 2], with toArray() [4, 8, 32, 65] and cardinality() 4 |
| Scenarios.FuzzValue | tests/bitset.test.js:387-400 | or(t1), xor(t2), and(t3) on a new object leave the single word ((0 \| t1) ^ t2) & t3 |
| Scenarios.OneWordCombine | tests/bitset.test.js:391-400 | combining one-word values combines their words |
| Scenarios.FuzzWordBits | tests/bitset.test.js:391-400 | bit k of the native ((0 \| t1) ^ t2) & t3 is set exactly when t1 and t2 differ there and t3 has it |
| Scenarios.FuzzWordBound | tests/bitset.test.js:390-400 | with t3 below 1 << 24, the native result of the final `&` stays below 1 << 24 |
| Scenarios.FuzzAgreement | tests/bitset.test.js:383-406 | for all t1, t2, t3 below 2^24, as the test draws them, the native ((0 \| t1) ^ t2) & t3 stays below 2^24 and the object's toString(2) is its binary string |
| Scenarios.HexEcho | tests/bitset.test.js:45-58 | any hex literal without leading zeros prints back in lower case |
| Scenarios.HexInHexOut | tests/bitset.test.js:47-48 | "0xD00000005" prints "d00000005" |
| Scenarios.OrOfPowers | tests/bitset.test.js:81-82 | 256 \| 512 is 768 |
| Scenarios.HexOf768 | tests/bitset.test.js:82 | 768 prints "300" in radix 16 |
| Scenarios.OrNumbers | tests/bitset.test.js:79-83 | `new BitSet(256).or(512).toString(16)` is "300" |
| Scenarios.AndOperandBits | tests/bitset.test.js:74-75 | every bit of 0xfe00 is also set in 0xff05 |
| Scenarios.AndKeepsFe00 | tests/bitset.test.js:74-75 | 0xff05 and 0xfe00 has the bits of 0xfe00 |
| Scenarios.HexOfFe00 | tests/bitset.test.js:75 | "0xfe00" prints "fe00" in radix 16 |
| Scenarios.AndOfHexLiterals | tests/bitset.test.js:72-77 | `new BitSet("0xff05").and("0xfe00").toString(16)` is "fe00" |
| Scenarios.SliceAboveString | tests/bitset.test.js:68-69 | a slice starting above every set bit of a non-negative value prints "0" in every radix |
| Scenarios.SliceFarOut | tests/bitset.test.js:68-69 | `new BitSet("0xff900018283821283").slice(130, 160).toString(8)` is "0" |
| Scenarios.DecimalOfNumber | tests/bitset.test.js:11-12 | `new BitSet(19219).toString(10)` is "19219" |
| Scenarios.SmallLiterals | tests/bitset.test.js:416-421 | "111" has bits 0 to 2; "101" has bits 0 and 2 |
| Scenarios.SevenString | tests/bitset.test.js:422-423 | bits 0 to 2 print "111" |
| Scenarios.FiveString | tests/bitset.test.js:426-427 | bits 0 and 2 print "101" |
| Scenarios.ClearedSeven | tests/bitset.test.js:425-434 | clearing bit 1 of "111" prints "101", has get(1) 0 and get(2) 1, and equals "101" |
| Scenarios.ReportedBug | tests/bitset.test.js:415-435 | "111" prints "111"; after clear(1) it prints "101", has get(1) 0 and get(2) 1, and equals "101" |
| Scenarios.ConstructZeroAndMinusOne | tests/bitset.test.js:14-18 | `new BitSet()` prints "0" in radix 32; `new BitSet(-1)` prints 32 ones |
| Scenarios.NotFourBits | tests/bitset.test.js:125-127 | 4 inverted is negative with every bit set but bit 2 |
| Scenarios.NotFourString | tests/bitset.test.js:129 | that value prints "...1111011" |
| Scenarios.NotFourShifted | tests/bitset.test.js:131 | slice(1) of it prints "...111101" |
| Scenarios.NotFourCut | tests/bitset.test.js:133 | slice(1, 3) of it prints "101" |
| Scenarios.SliceNegated | tests/bitset.test.js:123-134 | the three strings of the slice-negated case |
| Scenarios.NtzOfBinaryLiteral | tests/bitset.test.js:142-151 | ntz() of a binary literal is the position, from the right, of its last '1' |
| Scenarios.NtzOfZeroLiteral | tests/bitset.test.js:146 | ntz() of a literal of zeros is Infinity |
| Scenarios.MsbOfBinaryLiteral | tests/bitset.test.js:106-110 | msb() of a binary literal that starts with '1' is its length minus one |
| Scenarios.EqualsOfBinaryLiterals | tests/bitset.test.js:91-98 | two binary literals of one length parse to equal values exactly when they are the same string |
| Scenarios.NtzNine | tests/bitset.test.js:144 | ntz() of "10000000000110001000000000" is 9 |
| Scenarios.NtzNone | tests/bitset.test.js:146 | ntz() of 26 zeros is Infinity |
| Scenarios.NtzTwentyFive | tests/bitset.test.js:148 | ntz() of "1" and 25 zeros is 25 |
| Scenarios.NtzThirtyFive | tests/bitset.test.js:150 | ntz() of the 44-digit literal is 35 |
| Scenarios.CardinalityOfList | tests/bitset.test.js:100-104 | cardinality() of a non-negative value is the length of any ascending list of exactly its set bits |
| Scenarios.LiteralCardinality | tests/bitset.test.js:100-104 | cardinality() of a binary literal is the number of its '1' digits |
| Scenarios.CardinalityOfLiteral | tests/bitset.test.js:102-103 | cardinality() of "1000000000000000000001101" is 4 |
| Scenarios.MsbOfLiteral | tests/bitset.test.js:108-109 | msb() of "1000000000000000000001101" is its length minus one |
| Scenarios.EqualsSameLiteral | tests/bitset.test.js:93-94 | "100000000000111010101" equals itself |
| Scenarios.EqualsOtherLiteral | tests/bitset.test.js:96-97 | "111010101" does not equal "101010101" |
| Scenarios.GetTwo | tests/bitset.test.js:263-271 | set(4, 1) then set(0): get(4) + get(0) is 2 |
| Scenarios.StringEcho | tests/bitset.test.js:245-250 | a binary literal without leading zeros prints as itself |
| Scenarios.StringSet | tests/bitset.test.js:247-249 | "1000000000010000000000000000010001" prints as itself |
| Scenarios.EmptyChecks | tests/bitset.test.js:358-366 | isEmpty() holds for a new object and fails after set(1000) |
| Scenarios.SimpleXor | tests/bitset.test.js:332-347 | {0, 1} xor {1, 32}: toArray() is [0, 32] and cardinality() is 2 |
| Scenarios.InfinityStringOfBits | tests/bitset.test.js:412 | all bits set but 0, 1 and 35 prints "...1111011111111111111111111111111111111100" |
| Scenarios.InfinityString | tests/bitset.test.js:408-413 | `BitSet('11').not().set(35, 0)` prints that string |
| Scenarios.ClearedString | tests/bitset.test.js:440 | bits {0, 2, 3, 4} print "11101" |
| Scenarios.LiteralBits111101 | tests/bitset.test.js:438 | "111101" has bit 0 and bits 2 to 5 |
| Scenarios.ClearOne | tests/bitset.test.js:437-443 | clear(5) on "111101" prints "11101"; clear() then prints "0" |

## Left out

- The timing test (tests/bitset.test.js:233-243), a wall-clock bound on a million `set` calls. Time is not part of the model.
- The fuzz test's random inputs (tests/bitset.test.js:385-400). FuzzAgreement quantifies over all inputs below 2^24, the test's range. Above 2^31 the native operators give signed results that print with a minus sign, so the agreement is not claimed there; FuzzValue states the object's word for all 32-bit inputs.
- The storage growth policy. The model grows to exactly `i / 32 + 1` words. The library stores more words: tests/bitset.test.js:379 shows 10 words where the model has 3. That line's first three words are proved (Inverting); the zero padding is not.
- `and`, `or`, `xor` and `equals` with a number or string operand. The model takes a BitSet operand; a number or string is first made one with `FromNumber` or `Parse`, as the scenarios do.
- BitSet.FromNumber: models `new BitSet(n)` for integral n only, as the low 32 bits of n. JavaScript numbers that are not integers are not modelled.
- Text.Parse: reads only `0x`-prefixed hex and plain binary literals. The library's other literal forms are not modelled, and neither is a leading sign.
- Text.Parse: a literal without digits ("" or "0x") reads as zero rather than failing. No test covers it, and only a character that is not a digit of the radix is malformed.
- Negative bit indices. Every index taken by `get`, `set`, `clear`, `slice` and `slice(start)` is a `nat`. The library's behaviour for a negative index is unspecified and no test uses one, so the model neither rejects nor clamps it; the `InvalidIndex` error is not modelled.
- Text.ToString: gives `None` for a negative value in a radix other than 2. The tests print negative values only in radix 2.
- BitValue.ToArray: for a negative value, lists only the set bits inside the stored words. It is never asked to list the infinite tail.
- The BitSet class stores its words as a `seq` field that its methods reassign, not as a JavaScript array shared by reference. No test aliases the array.
- The concrete slices at tests/bitset.test.js:62-66 are not replayed. `slice(16, 32)` and `slice(16, 40)` of a 17-digit literal need per-digit reasoning too costly for the verifier. The operations they use are proved in general: BitValue.Slice bit by bit, Text.HexLiteralBit, and Text.BinaryStringIff.
- The long hex literals at tests/bitset.test.js:50-57 are not replayed one by one. Scenarios.HexEcho proves the echo for every hex literal without leading zeros, and Scenarios.HexInHexOut instantiates it for line 47.
- Radix 10 and 32 formatting is proved in general (Radix.FromToDigits), but only the two small cases at tests/bitset.test.js:11-15 are replayed.
