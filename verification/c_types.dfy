/** The C scalar types the display-name code works with, on an LP64 target
    (32-bit `int`, 64-bit `unsigned long`, 16-bit `unsigned short`), and the
    conversions between them that the code performs implicitly. */
module CTypes {

  const IntMin: int := -0x8000_0000
  const IntMax: int := 0x7fff_ffff
  const UIntModulus: nat := 0x1_0000_0000
  const ULongModulus: nat := 0x1_0000_0000_0000_0000
  const ULongMax: nat := ULongModulus - 1
  const UShortModulus: nat := 0x1_0000

  /** A C `int`. */
  type Int32 = x: int | IntMin <= x <= IntMax

  /** A C `unsigned int`, `CARD32`. */
  type UInt32 = x: int | 0 <= x < UIntModulus

  /** A C `unsigned long`. */
  type ULong = x: int | 0 <= x <= ULongMax

  /** A C `unsigned short`. */
  type UShort = x: int | 0 <= x < UShortModulus

  /** Assigning an `unsigned long` to an `int`: the value is reduced modulo
      2^32 and read as two's complement (the behaviour GCC documents for this
      implementation-defined conversion). */
  function ULongToInt(v: ULong): (r: Int32)
    ensures (r - v) % UIntModulus == 0
    ensures v <= IntMax ==> r == v
  {
    var w := v % UIntModulus;
    if w <= IntMax then w else w - UIntModulus
  }

  /** Converting an arbitrary integer to `unsigned short`: reduction modulo 2^16. */
  function ToUShort(x: int): (r: UShort)
    ensures (r - x) % UShortModulus == 0
    ensures 0 <= x < UShortModulus ==> r == x
  {
    x % UShortModulus
  }

  /** A negative `int` sign-extended to `unsigned long` narrows back to itself. */
  lemma NarrowNegative(x: Int32)
    requires x < 0
    ensures ULongToInt(ULongModulus + x) == x
  {
    assert ULongModulus + x == (UIntModulus - 1) * UIntModulus + (UIntModulus + x);
  }

  /** ULONG_MAX narrows to -1. */
  lemma SaturatedIsMinusOne()
    ensures ULongToInt(ULongMax) == -1
  {
    assert ULongMax == (UIntModulus - 1) * UIntModulus + (UIntModulus - 1);
  }
}
