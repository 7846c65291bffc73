/** The C library string routines the display-name code relies on, modelled
    on Dafny strings. A Dafny string stands for the characters of a C string
    before its NUL terminator. */
module CString {
  import opened Wrappers
  import opened CTypes

  /** `isspace` in the "C" locale. */
  predicate IsSpace(c: char) {
    c == ' ' || c == '\t' || c == '\n' || c == '\U{000B}' || c == '\U{000C}' || c == '\r'
  }

  predicate IsDigit(c: char) {
    '0' <= c <= '9'
  }

  predicate IsSign(c: char) {
    c == '+' || c == '-'
  }

  /** A non-empty run of decimal digits and nothing else. */
  predicate IsDigits(t: string) {
    |t| > 0 && forall k :: 0 <= k < |t| ==> IsDigit(t[k])
  }

  function DigitValue(c: char): (d: nat)
    requires IsDigit(c)
    ensures d < 10
  {
    (c as int) - ('0' as int)
  }

  function DigitChar(d: nat): (c: char)
    requires d < 10
    ensures IsDigit(c) && DigitValue(c) == d
  {
    ('0' as int + d) as char
  }

  /** The value of a decimal numeral, most significant digit first. */
  function DigitsValue(t: string): (value: nat)
    requires forall k :: 0 <= k < |t| ==> IsDigit(t[k])
  {
    if |t| == 0 then 0 else 10 * DigitsValue(t[..|t| - 1]) + DigitValue(t[|t| - 1])
  }

  /** The length of the longest prefix of `t` whose characters all satisfy `p`. */
  function Span(t: string, p: char -> bool): (n: nat)
    ensures n <= |t|
    ensures forall k :: 0 <= k < n ==> p(t[k])
    ensures n == |t| || !p(t[n])
  {
    if |t| > 0 && p(t[0]) then 1 + Span(t[1..], p) else 0
  }

  /** `strrchr(s, c)`: the position of the last occurrence of `c` in `s`. */
  function LastIndex(s: string, c: char): (r: Option<nat>)
    ensures r.None? <==> c !in s
    ensures r.Some? ==> r.value < |s| && s[r.value] == c && c !in s[r.value + 1..]
  {
    if |s| == 0 then None
    else if s[|s| - 1] == c then Some(|s| - 1)
    else LastIndex(s[..|s| - 1], c)
  }

  /** What `strtoul(t, &end, 10)` yields: the converted value and how many
      characters it consumed (`end - t`). */
  datatype Conversion = Conversion(value: ULong, used: nat)

  /** `strtoul` with base 10: leading white space is skipped, then an
      optional sign and the longest run of digits are converted. With no
      digits nothing is consumed and the value is 0. */
  function StrToUL(t: string): (r: Conversion)
    ensures r.used <= |t|
    ensures r.used == 0 ==> r.value == 0
    ensures r.used > 0 ==> IsDigit(t[r.used - 1]) && (r.used == |t| || !IsDigit(t[r.used]))
  {
    if |t| > 0 && IsSpace(t[0]) then
      var r := StrToUL(t[1..]);
      if r.used == 0 then r else Conversion(r.value, r.used + 1)
    else SignedToUL(t)
  }

  /** `strtoul` once the white space is skipped: an optional sign, then the
      digits. */
  function SignedToUL(t: string): (r: Conversion)
    ensures r.used <= |t|
    ensures r.used == 0 ==> r.value == 0
    ensures r.used > 0 ==> IsDigit(t[r.used - 1]) && (r.used == |t| || !IsDigit(t[r.used]))
  {
    if |t| > 0 && IsSign(t[0]) then
      var r := DigitsToUL(t[1..], t[0] == '-');
      if r.used == 0 then r else Conversion(r.value, r.used + 1)
    else DigitsToUL(t, false)
  }

  /** The longest run of digits at the start of `u`, converted. */
  function DigitsToUL(u: string, negative: bool): (r: Conversion)
    ensures r.used <= |u|
    ensures r.used == 0 ==> r.value == 0
    ensures r.used > 0 ==> IsDigits(u[..r.used]) && (r.used == |u| || !IsDigit(u[r.used]))
  {
    var digits := Span(u, IsDigit);
    if digits == 0 then Conversion(0, 0)
    else Conversion(Signed(negative, DigitsValue(u[..digits])), digits)
  }

  /** The value of a converted magnitude: one above ULONG_MAX saturates to
      ULONG_MAX, and a minus sign negates it in `unsigned long` arithmetic. */
  function Signed(negative: bool, magnitude: nat): (v: ULong)
    ensures magnitude > ULongMax ==> v == ULongMax
    ensures magnitude <= ULongMax && !negative ==> v == magnitude
    ensures 0 < magnitude <= ULongMax && negative ==> v == ULongModulus - magnitude
    ensures magnitude == 0 ==> v == 0
  {
    if magnitude > ULongMax then ULongMax
    else if negative then (ULongModulus - magnitude) % ULongModulus
    else magnitude
  }

  /** `printf("%u")` of a natural number: its decimal digits, no leading zeros. */
  function FormatNat(n: nat): (t: string)
    ensures IsDigits(t)
    ensures DigitsValue(t) == n
    ensures |t| == 1 || t[0] != '0'
  {
    if n < 10 then [DigitChar(n)]
    else
      var t := FormatNat(n / 10) + [DigitChar(n % 10)];
      assert t[..|t| - 1] == FormatNat(n / 10);
      t
  }

  /** `printf("%d")` of an `int`. */
  function FormatInt(x: int): (t: string)
    ensures |t| > 0
    ensures x >= 0 ==> IsDigits(t) && DigitsValue(t) == x
    ensures x < 0 ==> t[0] == '-' && IsDigits(t[1..]) && DigitsValue(t[1..]) == -x
    ensures x >= 0 ==> |t| == 1 || t[0] != '0'
    ensures x < 0 ==> t[1] != '0'
  {
    if x >= 0 then FormatNat(x) else "-" + FormatNat(-x)
  }

  /** What `snprintf(buf, size, ...)` stores in `buf` for the formatted text `t`:
      at most `size - 1` characters followed by NUL. */
  function Bounded(t: string, size: nat): (r: string)
    requires size > 0
    ensures |r| < size
    ensures r <= t
    ensures r == t <==> |t| < size
    ensures |r| == if |t| < size then |t| else size - 1
  {
    if |t| < size then t else t[..size - 1]
  }

  /** Ten digits suffice for every natural number below 10^10. */
  lemma {:induction false} FormatNatLength(n: nat, k: nat)
    requires n < Pow10(k)
    ensures |FormatNat(n)| <= k || (n == 0 && k == 0)
  {
    if n >= 10 {
      FormatNatLength(n / 10, k - 1);
    }
  }

  function Pow10(k: nat): (p: nat)
    ensures p >= 1
  {
    if k == 0 then 1 else 10 * Pow10(k - 1)
  }

  /** "%d" of an `int` never takes more than eleven characters. */
  lemma FormatIntLength(x: Int32)
    ensures |FormatInt(x)| <= 11
  {
    assert Pow10(10) == 10_000_000_000;
    if x >= 0 {
      FormatNatLength(x, 10);
    } else {
      FormatNatLength(-(x as int), 10);
    }
  }

  // ---------------------------------------------------------------------------
  // What `strtoul` consumes

  /** Optional white space, an optional sign and at least one digit: exactly
      the texts that `strtoul` converts to their very end. */
  predicate IsNumeral(t: string) {
    |t| > 0 && (if IsSpace(t[0]) then IsNumeral(t[1..]) else SignedDigits(t))
  }

  predicate SignedDigits(t: string) {
    IsDigits(t) || (|t| > 0 && IsSign(t[0]) && IsDigits(t[1..]))
  }

  /** White space, then a digit or a sign followed by a digit: the texts
      from which `strtoul` converts something. */
  predicate StartsNumeral(t: string) {
    |t| > 0 &&
    if IsSpace(t[0]) then StartsNumeral(t[1..])
    else IsDigit(t[0]) || (IsSign(t[0]) && |t| > 1 && IsDigit(t[1]))
  }

  /** `strtoul` consumes something exactly when a numeral starts the text. */
  lemma {:induction false} NumeralStarts(t: string)
    ensures StrToUL(t).used > 0 <==> StartsNumeral(t)
  {
    if |t| > 0 && IsSpace(t[0]) {
      NumeralStarts(t[1..]);
    }
  }

  /** `strtoul` consumes the whole text exactly when the text is a numeral. */
  lemma {:induction false} NumeralConsumed(t: string)
    ensures IsNumeral(t) <==> StrToUL(t).used == |t| > 0
  {
    if |t| > 0 {
      if IsSpace(t[0]) {
        NumeralConsumed(t[1..]);
      } else {
        SpanAll(t[1..], IsDigit);
        SpanAll(t, IsDigit);
      }
    }
  }

  /** What `strtoul` consumed is a numeral. */
  lemma {:induction false} ConsumedIsNumeral(t: string)
    requires StrToUL(t).used > 0
    ensures IsNumeral(t[..StrToUL(t).used])
  {
    var u := StrToUL(t).used;
    if IsSpace(t[0]) {
      ConsumedIsNumeral(t[1..]);
      assert t[..u][1..] == t[1..][..u - 1];
    } else {
      SignedConsumed(t);
    }
  }

  lemma SignedConsumed(t: string)
    requires |t| > 0 && !IsSpace(t[0]) && SignedToUL(t).used > 0
    ensures SignedDigits(t[..SignedToUL(t).used])
  {
    var u := SignedToUL(t).used;
    if IsSign(t[0]) {
      assert t[..u][1..] == t[1..][..u - 1];
    }
  }

  /** A numeral followed by a non-digit converts as the numeral alone. */
  lemma {:induction false} NumeralThenOther(a: string, tail: string)
    requires IsNumeral(a)
    requires tail == [] || !IsDigit(tail[0])
    ensures StrToUL(a + tail) == StrToUL(a)
  {
    var t := a + tail;
    if IsSpace(a[0]) {
      assert t[1..] == a[1..] + tail;
      NumeralThenOther(a[1..], tail);
    } else {
      SignedThenOther(a, tail);
    }
  }

  lemma SignedThenOther(a: string, tail: string)
    requires |a| > 0 && SignedDigits(a)
    requires tail == [] || !IsDigit(tail[0])
    ensures SignedToUL(a + tail) == SignedToUL(a)
  {
    if IsSign(a[0]) {
      assert (a + tail)[1..] == a[1..] + tail;
      DigitsThenOther(a[1..], tail, a[0] == '-');
    } else {
      DigitsThenOther(a, tail, false);
    }
  }

  lemma DigitsThenOther(u: string, tail: string, negative: bool)
    requires IsDigits(u)
    requires tail == [] || !IsDigit(tail[0])
    ensures DigitsToUL(u + tail, negative) == DigitsToUL(u, negative)
  {
    SpanAll(u, IsDigit);
    SpanAppend(u, tail, IsDigit);
    assert (u + tail)[..|u|] == u[..|u|];
  }

  /** A run of characters all satisfying `p` is spanned entirely. */
  lemma SpanAll(t: string, p: char -> bool)
    ensures (forall k :: 0 <= k < |t| ==> p(t[k])) <==> Span(t, p) == |t|
  {
  }

  /** A span stops where the characters satisfying `p` stop. */
  lemma {:induction false} SpanAppend(t: string, tail: string, p: char -> bool)
    requires forall k :: 0 <= k < |t| ==> p(t[k])
    requires tail == [] || !p(tail[0])
    ensures Span(t + tail, p) == |t|
  {
    if |t| > 0 {
      assert (t + tail)[1..] == t[1..] + tail;
      SpanAppend(t[1..], tail, p);
    }
  }

  /** `strtoul` reads back what `printf("%d")` wrote, once the `unsigned long`
      is narrowed to `int` again. */
  lemma FormatIntConversion(x: Int32)
    ensures IsNumeral(FormatInt(x))
    ensures StrToUL(FormatInt(x)).used == |FormatInt(x)|
    ensures ULongToInt(StrToUL(FormatInt(x)).value) == x
  {
    if x >= 0 {
      DigitsConversion(FormatInt(x), false);
    } else {
      NegativeConversion(x);
    }
    NumeralConsumed(FormatInt(x));
  }

  lemma NegativeConversion(x: Int32)
    requires x < 0
    ensures StrToUL(FormatInt(x)).used == |FormatInt(x)|
    ensures ULongToInt(StrToUL(FormatInt(x)).value) == x
  {
    var t := FormatInt(x);
    DigitsConversion(t[1..], true);
    assert StrToUL(t).value == ULongModulus + x;
    NarrowNegative(x);
  }

  /** A run of digits converts to its value, negated if asked. */
  lemma DigitsConversion(u: string, negative: bool)
    requires IsDigits(u)
    ensures DigitsToUL(u, negative).used == |u|
    ensures DigitsToUL(u, negative).value == Signed(negative, DigitsValue(u))
  {
    SpanAll(u, IsDigit);
    assert u[..|u|] == u;
  }

  /** The value `strtoul` converts: after white space and an optional sign,
      the value of the digits, saturated at ULONG_MAX and negated in
      `unsigned long` after a minus sign; the whole text is consumed. */
  lemma {:induction false} NumeralValue(ws: string, sign: string, d: string)
    requires forall k :: 0 <= k < |ws| ==> IsSpace(ws[k])
    requires sign == "" || sign == "+" || sign == "-"
    requires IsDigits(d)
    ensures StrToUL(ws + sign + d) == Conversion(Signed(sign == "-", DigitsValue(d)), |ws + sign + d|)
  {
    var t := ws + sign + d;
    if |ws| > 0 {
      assert t[1..] == ws[1..] + sign + d;
      NumeralValue(ws[1..], sign, d);
    } else {
      DigitsConversion(d, sign == "-");
      if sign != "" {
        assert t[0] == sign[0] && t[1..] == d;
        assert SignedToUL(t) == Conversion(Signed(sign == "-", DigitsValue(d)), |d| + 1);
      } else {
        assert t == d && IsDigit(t[0]);
        assert SignedToUL(t) == DigitsToUL(d, false);
      }
    }
  }

  lemma DigitsHaveNoSeparator(t: string)
    requires IsDigits(t)
    ensures ':' !in t && '.' !in t
  {
  }

  lemma FormatIntHasNoSeparator(x: int)
    ensures ':' !in FormatInt(x) && '.' !in FormatInt(x)
  {
    if x >= 0 {
      DigitsHaveNoSeparator(FormatInt(x));
    } else {
      DigitsHaveNoSeparator(FormatInt(x)[1..]);
      assert FormatInt(x) == "-" + FormatInt(x)[1..];
    }
  }

  /** The last occurrence is the one with no further occurrence after it. */
  lemma LastIndexAt(s: string, c: char, i: nat)
    requires i < |s| && s[i] == c && c !in s[i + 1..]
    ensures LastIndex(s, c) == Some(i)
  {
  }
}
