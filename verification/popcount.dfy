/** `XCBPopcount`: the HAKMEM 169 bit count of a 32-bit mask, computed in
    `unsigned long` arithmetic with octal masks, and its proof against a
    plain count of set bits.

    The C operators are modelled on naturals: `>> k` is division by 2^k,
    `&` is `BitAnd`, and `unsigned long` subtraction and addition wrap
    modulo 2^64. The proof reads every value in octal: the first two lines
    replace each octal digit of the mask by its number of set bits, the
    third adds neighbouring digits into base-64 digits, and `% 077` adds
    the base-64 digits because 64 leaves remainder 1 when divided by 63. */
module BitCount {
  import opened CTypes

  /** `033333333333`: the octal digit 3 in each of the eleven positions. */
  const Threes: ULong := 0xdb6d_b6db

  /** `030707070707`: octal 7 in the even positions 0..8, 3 in position 10. */
  const EvenDigits: ULong := 0xc71c_71c7

  /** The C operator `&` on non-negative integers, one binary digit at a time. */
  function BitAnd(a: nat, b: nat): (r: nat)
    ensures r <= a && r <= b
  {
    if a == 0 then 0
    else 2 * BitAnd(a / 2, b / 2) + (if a % 2 == 1 && b % 2 == 1 then 1 else 0)
  }

  /** `unsigned long` subtraction: the difference modulo 2^64. */
  function Sub(a: ULong, b: ULong): (r: ULong)
    ensures (r - (a - b)) % ULongModulus == 0
    ensures b <= a ==> r == a - b
  {
    (a - b) % ULongModulus
  }

  /** `unsigned long` addition: the sum modulo 2^64. */
  function Add(a: ULong, b: ULong): (r: ULong)
    ensures (r - (a + b)) % ULongModulus == 0
    ensures a + b <= ULongMax ==> r == a + b
  {
    (a + b) % ULongModulus
  }

  /** `XCBPopcount(mask)`, line for line: the count equals the number of set
      bits of the mask, so it lies in 0..32. */
  function Popcount(mask: UInt32): (count: int)
    ensures count == Ones(mask)
    ensures 0 <= count <= 32
  {
    var y := BitAnd(mask / 2, Threes);
    var y := Sub(Sub(mask, y), BitAnd(y / 2, Threes));
    DigitCounts(mask);
    DigitSumsModulo63(mask, y, Add(y, y / 8));
    BitAnd(Add(y, y / 8), EvenDigits) % 63
  }

  /** The number of set bits of `n`: the reference the HAKMEM count must meet. */
  function Ones(n: nat): (count: nat) {
    if n == 0 then 0 else n % 2 + Ones(n / 2)
  }

  /** Lines 47-48 replace every octal digit of the mask by its bit count,
      without wrapping around in `unsigned long`. */
  lemma DigitCounts(mask: UInt32)
    ensures var y := BitAnd(mask / 2, Threes);
      Sub(Sub(mask, y), BitAnd(y / 2, Threes)) == Counted(mask)
  {
    assert Pow8(11) == 0x2_0000_0000;
    ThreesShape();
    var y := BitAnd(mask / 2, Threes);
    HalvedIsMasked(mask, Threes, 11);
    HalvedDigits(mask);
    HalvedIsMasked(y, Threes, 11);
    CountedIsDifference(mask);
  }

  /** Line 49 turns the digit counts `c` into the total count; `z` stands
      for `c + (c >> 3)`. */
  lemma DigitSumsModulo63(mask: UInt32, c: ULong, z: ULong)
    requires c == Counted(mask) && z == Add(c, c / 8)
    ensures BitAnd(z, EvenDigits) % 63 == Ones(mask) <= 32
  {
    CountedDigits(mask);
    PairsOfDigits(c, z);
    var t := PairSumOfCounted(mask, c);
    ModOfMultiple(Ones(mask), t);
  }

  /** The base-64 digit sums of the digit counts exceed the bit count by a
      multiple of 63. */
  lemma PairSumOfCounted(mask: UInt32, c: nat) returns (t: nat)
    requires c == Counted(mask)
    ensures PairSum(c) == Ones(mask) + 63 * t && Ones(mask) <= 32
  {
    t := PairSumCongruent(c);
    DigitSumOfCounted(mask);
    OnesOfMask(mask);
  }

  /** `(y + (y >> 3)) & 030707070707` on a value of eleven small octal
      digits; `z` stands for `y + (y >> 3)`. */
  lemma PairsOfDigits(y: ULong, z: ULong)
    requires SmallDigits(y) && y < 0x2_0000_0000 && z == Add(y, y / 8)
    ensures BitAnd(z, EvenDigits) == PairSum(y)
  {
    assert Pow8(11) == 0x2_0000_0000;
    EvenDigitsShape();
    PairSumIsMasked(y, z, EvenDigits, 5);
  }

  lemma OnesOfMask(mask: UInt32)
    ensures Ones(mask) <= 32
  {
    Pow2Of32();
    OnesBound(mask, 32);
  }

  // ---------------------------------------------------------------------------
  // Octal views of a number

  function Pow8(k: nat): (p: nat)
    ensures p >= 1
  {
    if k == 0 then 1 else 8 * Pow8(k - 1)
  }

  function Pow2(k: nat): (p: nat)
    ensures p >= 1
  {
    if k == 0 then 1 else 2 * Pow2(k - 1)
  }

  /** Every octal digit halved (rounding down). */
  function Halved(x: nat): (h: nat) {
    if x == 0 then 0 else (x % 8) / 2 + 8 * Halved(x / 8)
  }

  /** Every octal digit replaced by its number of set bits. */
  function Counted(x: nat): (c: nat) {
    if x == 0 then 0 else Ones(x % 8) + 8 * Counted(x / 8)
  }

  /** The sum of the octal digits. */
  function DigitSum(y: nat): (sum: nat) {
    if y == 0 then 0 else y % 8 + DigitSum(y / 8)
  }

  /** Neighbouring octal digits added pairwise into base-64 digits. */
  function PairSum(y: nat): (sum: nat) {
    if y == 0 then 0 else y % 8 + (y / 8) % 8 + 64 * PairSum(y / 64)
  }

  /** Every octal digit is at most 3. */
  predicate SmallDigits(y: nat) {
    y == 0 || (y % 8 <= 3 && SmallDigits(y / 8))
  }

  /** The lowest `k` octal digits are all 3. */
  predicate RepeatsThree(m: nat, k: nat) {
    k == 0 || (m % 8 == 3 && RepeatsThree(m / 8, k - 1))
  }

  /** `k` base-64 digits of octal 07, then a final octal digit 3. */
  predicate EvenShape(m: nat, k: nat) {
    if k == 0 then m == 3 else m % 64 == 7 && EvenShape(m / 64, k - 1)
  }

  lemma ThreesShape()
    ensures RepeatsThree(Threes, 11)
  {
  }

  lemma EvenDigitsShape()
    ensures EvenShape(EvenDigits, 5)
  {
  }

  // ---------------------------------------------------------------------------
  // Bitwise AND, one octal digit at a time

  /** The lowest binary digit of `a & b`. */
  function LowBit(a: nat, b: nat): (bit: nat) {
    if a % 2 == 1 && b % 2 == 1 then 1 else 0
  }

  /** Binary digit `k` of `n`. */
  function Bit(n: nat, k: nat): (bit: nat) {
    if k == 0 then n % 2 else Bit(n / 2, k - 1)
  }

  /** `BitAnd` is the C `&`: a binary digit of `a & b` is set exactly when
      it is set in both `a` and `b`. */
  lemma {:induction false} AndBits(a: nat, b: nat, k: nat)
    ensures Bit(BitAnd(a, b), k) == 1 <==> Bit(a, k) == 1 && Bit(b, k) == 1
  {
    AndUnfold(a, b);
    if k > 0 {
      AndBits(a / 2, b / 2, k - 1);
    }
  }

  lemma AndUnfold(a: nat, b: nat)
    ensures BitAnd(a, b) == 2 * BitAnd(a / 2, b / 2) + LowBit(a, b)
  {
  }

  lemma {:induction false} AndZero(a: nat)
    ensures BitAnd(a, 0) == 0
  {
    if a != 0 {
      AndZero(a / 2);
    }
  }

  /** Three binary digits of `a & b` at once. */
  lemma AndThreeBits(a: nat, b: nat)
    ensures BitAnd(a, b) == 8 * BitAnd(a / 2 / 2 / 2, b / 2 / 2 / 2)
      + 4 * LowBit(a / 2 / 2, b / 2 / 2) + 2 * LowBit(a / 2, b / 2) + LowBit(a, b)
  {
    AndUnfold(a, b);
    AndUnfold(a / 2, b / 2);
    AndUnfold(a / 2 / 2, b / 2 / 2);
  }

  /** `&` splits into the lowest octal digit and the rest. */
  lemma AndOctal(a: nat, b: nat)
    ensures BitAnd(a, b) == BitAnd(a % 8, b % 8) + 8 * BitAnd(a / 8, b / 8)
  {
    AndThreeBits(a, b);
    AndThreeBits(a % 8, b % 8);
    LowDigitBits(a);
    LowDigitBits(b);
  }

  /** The three binary digits of `x % 8` are the lowest three of `x`. */
  lemma LowDigitBits(x: nat)
    ensures x / 2 / 2 / 2 == x / 8
    ensures (x % 8) / 2 / 2 / 2 == 0
    ensures (x % 8) % 2 == x % 2
    ensures (x % 8 / 2) % 2 == (x / 2) % 2
    ensures (x % 8 / 2 / 2) % 2 == (x / 2 / 2) % 2
  {
    var q, r := x / 8, x % 8;
    assert x / 2 == 4 * q + r / 2;
    assert x / 2 / 2 == 2 * q + r / 2 / 2;
  }

  lemma AndDigit(v: nat)
    requires v < 8
    ensures BitAnd(v, 3) == v % 4
    ensures BitAnd(v, 7) == v
  {
    AndThree(v);
    AndSeven(v);
  }

  /** The table of `v & 3` for one octal digit `v`. */
  lemma AndThree(v: nat)
    requires v < 8
    ensures BitAnd(v, 3) == v % 4
  {
    if v == 0 {
    } else if v == 1 {
      assert BitAnd(1, 3) == 1;
    } else if v == 2 {
      assert BitAnd(2, 3) == 2;
    } else if v == 3 {
      assert BitAnd(3, 3) == 3;
    } else if v == 4 {
      assert BitAnd(4, 3) == 0;
    } else if v == 5 {
      assert BitAnd(5, 3) == 1;
    } else if v == 6 {
      assert BitAnd(6, 3) == 2;
    } else {
      assert BitAnd(7, 3) == 3;
    }
  }

  /** The table of `v & 7` for one octal digit `v`. */
  lemma AndSeven(v: nat)
    requires v < 8
    ensures BitAnd(v, 7) == v
  {
    if v == 0 {
    } else if v == 1 {
      assert BitAnd(1, 7) == 1;
    } else if v == 2 {
      assert BitAnd(2, 7) == 2;
    } else if v == 3 {
      assert BitAnd(3, 7) == 3;
    } else if v == 4 {
      assert BitAnd(4, 7) == 4;
    } else if v == 5 {
      assert BitAnd(5, 7) == 5;
    } else if v == 6 {
      assert BitAnd(6, 7) == 6;
    } else {
      assert BitAnd(7, 7) == 7;
    }
  }

  // ---------------------------------------------------------------------------
  // Line 47-48: shift, mask and subtract count the bits of each octal digit

  /** `(x >> 1) & 0333...3` halves every octal digit of `x`. */
  lemma {:induction false} HalvedIsMasked(x: nat, m: nat, k: nat)
    requires x < Pow8(k) && RepeatsThree(m, k)
    ensures BitAnd(x / 2, m) == Halved(x)
  {
    if k == 0 {
      assert x == 0;
    } else {
      HalfDigit(x);
      AndOctal(x / 2, m);
      AndDigit((x / 2) % 8);
      HalvedIsMasked(x / 8, m / 8, k - 1);
    }
  }

  /** Shifting right by one moves a binary digit of the next octal digit
      into the top of the lowest one. */
  lemma HalfDigit(x: nat)
    ensures ((x / 2) % 8) % 4 == (x % 8) / 2
    ensures x / 2 / 8 == x / 8 / 2
  {
    var q, r := x / 8, x % 8;
    assert x / 2 == 4 * q + r / 2;
    assert x / 2 / 8 == q / 2;
    assert (x / 2) % 8 == 4 * (q % 2) + r / 2;
  }

  lemma {:induction false} HalvedDigits(x: nat)
    ensures Halved(x) <= x
    ensures Halved(x) % 8 == (x % 8) / 2
    ensures Halved(x) / 8 == Halved(x / 8)
  {
    if x != 0 {
      HalvedDigits(x / 8);
      OctalParts((x % 8) / 2, Halved(x / 8));
    }
  }

  /** The lowest octal digit and the rest of `d + 8 * rest`. */
  lemma OctalParts(d: nat, rest: nat)
    requires d < 8
    ensures (d + 8 * rest) % 8 == d && (d + 8 * rest) / 8 == rest
  {
  }

  lemma {:induction false} CountedIsDifference(x: nat)
    ensures Halved(x) + Halved(Halved(x)) <= x
    ensures x - Halved(x) - Halved(Halved(x)) == Counted(x)
  {
    if x != 0 {
      var d, q := x % 8, x / 8;
      HalvedDigits(x);
      HalvedDigits(Halved(x));
      CountedIsDifference(q);
      assert Ones(d) == d - d / 2 - d / 2 / 2 by { OnesOfDigit(d); }
    }
  }

  lemma OnesOfDigit(d: nat)
    requires d < 8
    ensures Ones(d) == d - d / 2 - d / 2 / 2
    ensures Ones(d) <= 3 && Ones(d) <= d
  {
  }

  lemma {:induction false} CountedDigits(x: nat)
    ensures Counted(x) <= x
    ensures SmallDigits(Counted(x))
    ensures Counted(x) % 8 == Ones(x % 8)
    ensures Counted(x) / 8 == Counted(x / 8)
  {
    if x != 0 {
      CountedDigits(x / 8);
      OnesOfDigit(x % 8);
      OctalParts(Ones(x % 8), Counted(x / 8));
    }
  }

  // ---------------------------------------------------------------------------
  // Line 49: add neighbouring digits, keep the even ones, reduce modulo 63

  /** `(y + (y >> 3)) & 030707070707` adds octal digits pairwise when no
      digit exceeds 3; `z` stands for `y + (y >> 3)`. */
  lemma {:induction false} PairSumIsMasked(y: nat, z: nat, m: nat, k: nat)
    requires SmallDigits(y) && y < Pow8(2 * k + 1) && EvenShape(m, k)
    requires z == y + y / 8
    ensures BitAnd(z, m) == PairSum(y)
  {
    if k == 0 {
      PairSumOfDigit(y, z);
    } else {
      var up, rest := y / 64, m / 64;
      var high := up + up / 8;
      EvenShapeStep(m, k);
      MaskLowPair(y, z, m, high, rest);
      Pow8Pair(k - 1, y);
      PairSumIsMasked(up, high, rest, k - 1);
      PairSumUnfold(y);
    }
  }

  /** The lowest base-64 digit of `(y + (y >> 3)) & m` is the sum of the two
      lowest octal digits of `y`; `high` stands for `(y >> 6) + (y >> 9)`. */
  lemma MaskLowPair(y: nat, z: nat, m: nat, high: nat, rest: nat)
    requires SmallDigits(y) && z == y + y / 8 && high == y / 64 + y / 64 / 8
    requires m % 64 == 7 && rest == m / 64
    ensures SmallDigits(y / 64)
    ensures BitAnd(z, m) == y % 8 + (y / 8) % 8 + 64 * BitAnd(high, rest)
  {
    NeighbourSum(y);
    AndEvenDigit(z, m, y % 8 + (y / 8) % 8, high, rest);
  }

  lemma EvenShapeStep(m: nat, k: nat)
    requires EvenShape(m, k) && k > 0
    ensures m % 64 == 7 && EvenShape(m / 64, k - 1)
  {
  }

  lemma PairSumOfDigit(y: nat, z: nat)
    requires SmallDigits(y) && y < 8 && z == y + y / 8
    ensures BitAnd(z, 3) == PairSum(y)
  {
    assert z == y;
    AndDigit(y);
    assert PairSum(y) == y;
  }

  lemma PairSumUnfold(y: nat)
    ensures PairSum(y) == y % 8 + (y / 8) % 8 + 64 * PairSum(y / 64)
  {
  }

  /** Two octal digits fewer after `>> 6`. */
  lemma Pow8Pair(k: nat, y: nat)
    requires y < Pow8(2 * (k + 1) + 1)
    ensures y / 64 < Pow8(2 * k + 1)
  {
    assert Pow8(2 * (k + 1) + 1) == 8 * Pow8(2 * k + 2);
    assert Pow8(2 * (k + 1) + 1) == 64 * Pow8(2 * k + 1);
  }

  /** A mask whose lowest base-64 digit is octal 07 keeps the lowest octal
      digit `low` of `z` and drops the next one; `high` stands for `z >> 6`
      and `rest` for `m >> 6`. */
  lemma AndEvenDigit(z: nat, m: nat, low: nat, high: nat, rest: nat)
    requires m % 64 == 7 && rest == m / 64
    requires low == z % 8 && high == z / 8 / 8
    ensures BitAnd(z, m) == low + 64 * BitAnd(high, rest)
  {
    EvenMaskParts(m);
    AndOctal(z / 8, m / 8);
    AndZero((z / 8) % 8);
    AndOctal(z, m);
    AndDigit(z % 8);
  }

  /** Adding `y >> 3` to `y` produces no carries while its digits are small. */
  lemma NeighbourSum(y: nat)
    requires SmallDigits(y)
    ensures y / 8 / 8 == y / 64
    ensures SmallDigits(y / 64)
    ensures (y + y / 8) % 8 == y % 8 + (y / 8) % 8
    ensures (y + y / 8) / 8 / 8 == y / 64 + y / 64 / 8
  {
    SmallLowDigits(y);
    NoCarry(y);
  }

  /** The three lowest octal digits of a number with small digits. */
  lemma SmallLowDigits(y: nat)
    requires SmallDigits(y)
    ensures y / 8 / 8 == y / 64
    ensures SmallDigits(y / 64)
    ensures y % 8 <= 3 && (y / 8) % 8 <= 3 && (y / 8 / 8) % 8 <= 3
  {
    if y != 0 {
      assert SmallDigits(y / 8);
      if y / 8 != 0 {
        assert SmallDigits(y / 8 / 8);
      }
    }
  }

  lemma NoCarry(y: nat)
    requires y % 8 <= 3 && (y / 8) % 8 <= 3 && (y / 8 / 8) % 8 <= 3
    ensures (y + y / 8) % 8 == y % 8 + (y / 8) % 8
    ensures (y + y / 8) / 8 / 8 == y / 8 / 8 + y / 8 / 8 / 8
  {
    var c0, q := y % 8, y / 8;
    var c1, r := q % 8, q / 8;
    var c2, top := r % 8, r / 8;
    assert y + q == (c0 + c1) + 8 * (q + r);
    OctalParts(c0 + c1, q + r);
    assert q + r == (c1 + c2) + 8 * (r + top);
    OctalParts(c1 + c2, r + top);
  }

  lemma EvenMaskParts(m: nat)
    requires m % 64 == 7
    ensures m % 8 == 7 && (m / 8) % 8 == 0 && m / 8 / 8 == m / 64
  {
  }

  /** Base-64 digit sums and octal digit sums differ by a multiple of 63. */
  lemma {:induction false} PairSumCongruent(y: nat) returns (t: nat)
    ensures PairSum(y) == DigitSum(y) + 63 * t
  {
    if y == 0 {
      t := 0;
    } else {
      var up := y / 64;
      assert y / 8 / 8 == up;
      assert DigitSum(y) == y % 8 + (y / 8) % 8 + DigitSum(up) by {
        assert y / 8 != 0 ==> DigitSum(y / 8) == (y / 8) % 8 + DigitSum(up);
      }
      var t' := PairSumCongruent(up);
      t := DigitSum(up) + 64 * t';
    }
  }

  lemma ModOfMultiple(d: nat, t: nat)
    requires d < 63
    ensures (d + 63 * t) % 63 == d
  {
  }

  lemma {:induction false} DigitSumOfCounted(x: nat)
    ensures DigitSum(Counted(x)) == Ones(x)
  {
    if x != 0 {
      CountedDigits(x);
      DigitSumOfCounted(x / 8);
      OnesOctal(x);
    }
  }

  /** The bit count splits into the lowest octal digit and the rest. */
  lemma OnesOctal(x: nat)
    ensures Ones(x) == Ones(x % 8) + Ones(x / 8)
  {
    OnesUnfold(x);
    OnesUnfold(x / 2);
    OnesUnfold(x / 2 / 2);
    LowDigitBits(x);
    OnesOfDigitBits(x % 8);
  }

  lemma OnesUnfold(n: nat)
    ensures Ones(n) == n % 2 + Ones(n / 2)
  {
  }

  lemma OnesOfDigitBits(d: nat)
    requires d < 8
    ensures Ones(d) == d % 2 + (d / 2) % 2 + (d / 2 / 2) % 2
  {
  }

  lemma {:induction false} Pow2Add(a: nat, b: nat)
    ensures Pow2(a + b) == Pow2(a) * Pow2(b)
  {
    if a > 0 {
      Pow2Add(a - 1, b);
    }
  }

  lemma Pow2Of32()
    ensures Pow2(32) == UIntModulus
  {
    assert Pow2(8) == 256;
    Pow2Add(8, 8);
    Pow2Add(16, 16);
  }

  lemma {:induction false} OnesBound(n: nat, k: nat)
    requires n < Pow2(k)
    ensures Ones(n) <= k
  {
    if k > 0 {
      OnesBound(n / 2, k - 1);
    }
  }
}
