/** The two Rust standard-library conversions that the chmod decoder chains:
    `u32::to_string` (decimal rendering) and `u32::from_str_radix` (parsing a
    string of digits in a given radix, with overflow checking). */
module Numerals {
  import opened Wrappers

  const U32_MAX: int := 0xFFFF_FFFF

  /** Rust's `u32`. */
  newtype uint32 = x: int | 0 <= x <= U32_MAX

  predicate IsDecimalDigit(c: char) {
    '0' <= c <= '9'
  }

  predicate IsDecimal(s: string) {
    forall i :: 0 <= i < |s| ==> IsDecimalDigit(s[i])
  }

  function DigitValue(c: char): nat
    requires IsDecimalDigit(c)
  {
    c as int - '0' as int
  }

  function DigitChar(d: nat): (c: char)
    requires d < 10
    ensures IsDecimalDigit(c) && DigitValue(c) == d
  {
    (d + '0' as int) as char
  }

  /** `n.to_string()`: the decimal digits of n, most significant first, with
      no sign and no leading zero. */
  function ToDecimalString(n: nat): (s: string)
    ensures |s| >= 1 && IsDecimal(s)
    ensures s[0] == '0' ==> n == 0 && s == "0"
    decreases n
  {
    if n < 10 then [DigitChar(n)] else ToDecimalString(n / 10) + [DigitChar(n % 10)]
  }

  /** The number a string of decimal digits denotes when each digit is read
      with the given positional weight `base`. */
  function DigitsValue(s: string, base: nat): nat
    requires IsDecimal(s)
    decreases |s|
  {
    if s == [] then 0 else DigitsValue(s[..|s| - 1], base) * base + DigitValue(s[|s| - 1])
  }

  /** Every digit of s is a valid digit of the given radix. */
  predicate DigitsBelow(s: string, radix: nat)
    requires IsDecimal(s)
  {
    forall i :: 0 <= i < |s| ==> DigitValue(s[i]) < radix
  }

  /** `std::num::IntErrorKind` as far as parsing an unsigned integer goes. */
  datatype IntErrorKind = Empty | InvalidDigit | PosOverflow

  /** `char::to_digit(radix)` for a radix of at most ten. */
  function ToDigit(c: char, radix: nat): Option<nat>
    requires 2 <= radix <= 10
  {
    if IsDecimalDigit(c) && DigitValue(c) < radix then Some(DigitValue(c)) else None
  }

  /** The digit loop of `from_str_radix`, left to right: each character must be
      a digit of the radix (else InvalidDigit), and `acc * radix + digit` must
      stay within u32 (else PosOverflow). The first failure met is reported.
      The loop succeeds exactly when every character is a digit of the radix
      and the number they denote fits in u32, and then yields that number. */
  function Accumulate(digits: string, radix: nat): (r: Result<uint32, IntErrorKind>)
    requires 2 <= radix <= 10
    ensures r.Ok? <==> IsDecimal(digits) && DigitsBelow(digits, radix) && DigitsValue(digits, radix) <= U32_MAX
    ensures r.Ok? ==> r.value as int == DigitsValue(digits, radix)
    ensures r.Err? ==> r.error != Empty
    ensures r.Err? && IsDecimal(digits) && DigitsBelow(digits, radix) ==> r.error == PosOverflow
    decreases |digits|
  {
    if digits == [] then Ok(0)
    else
      DigitsBelowSplit(digits, radix);
      DigitsValueLast(digits, radix);
      var prefix := Accumulate(digits[..|digits| - 1], radix);
      var digit := ToDigit(digits[|digits| - 1], radix);
      if prefix.Err? then prefix
      else if digit.None? then Err(InvalidDigit)
      else
        var next := prefix.value as int * radix + digit.value;
        if next > U32_MAX then Err(PosOverflow) else Ok(next as uint32)
  }

  /** The text `from_str_radix` hands to the digit loop: src without one
      leading '+'. */
  function Unsigned(src: string): string {
    if |src| > 0 && src[0] == '+' then src[1..] else src
  }

  /** `u32::from_str_radix(src, radix)`: an empty string is Empty; a lone sign
      is InvalidDigit; one leading '+' is skipped; then the digit loop. It
      succeeds exactly when what follows the '+' is a nonempty run of digits
      of the radix whose value fits in u32. */
  function FromStrRadix(src: string, radix: nat): (r: Result<uint32, IntErrorKind>)
    requires 2 <= radix <= 10
    ensures r == Err(Empty) <==> src == []
    ensures var d := Unsigned(src);
      r.Ok? <==> d != [] && IsDecimal(d) && DigitsBelow(d, radix) && DigitsValue(d, radix) <= U32_MAX
    ensures r.Ok? ==> r.value as int == DigitsValue(Unsigned(src), radix)
  {
    if src == [] then Err(Empty)
    else if (src[0] == '+' || src[0] == '-') && |src| == 1 then
      assert src[0] == '-' ==> !IsDecimalDigit(src[0]);
      Err(InvalidDigit)
    else if src[0] == '+' then Accumulate(src[1..], radix)
    else Accumulate(src, radix)
  }

  /** The value of a string of digits is at least the value of its prefix
      without the last digit. */
  lemma DigitsValueLast(s: string, radix: nat)
    requires s != [] && radix >= 1
    ensures IsDecimal(s) ==> IsDecimal(s[..|s| - 1]) && DigitsValue(s[..|s| - 1], radix) <= DigitsValue(s, radix)
  {
    if IsDecimal(s) {
      var p := s[..|s| - 1];
      assert IsDecimal(p) by {
        forall i | 0 <= i < |p| ensures IsDecimalDigit(p[i]) { assert p[i] == s[i]; }
      }
      MulMonotone(DigitsValue(p, radix), DigitsValue(p, radix), 1, radix);
    }
  }

  /** A string of digits of the radix is one with its last character dropped,
      followed by one more digit of the radix. */
  lemma DigitsBelowSplit(s: string, radix: nat)
    requires s != []
    ensures var p, c := s[..|s| - 1], s[|s| - 1];
      IsDecimal(s) && DigitsBelow(s, radix) <==>
        IsDecimal(p) && DigitsBelow(p, radix) && IsDecimalDigit(c) && DigitValue(c) < radix
  {
    var p := s[..|s| - 1];
    if IsDecimal(p) && DigitsBelow(p, radix) && IsDecimalDigit(s[|s| - 1]) && DigitValue(s[|s| - 1]) < radix {
      forall i | 0 <= i < |s| ensures IsDecimalDigit(s[i]) && DigitValue(s[i]) < radix {
        if i < |s| - 1 { assert s[i] == p[i]; }
      }
    }
    if IsDecimal(s) && DigitsBelow(s, radix) {
      forall i | 0 <= i < |p| ensures IsDecimalDigit(p[i]) && DigitValue(p[i]) < radix {
        assert p[i] == s[i];
      }
    }
  }

  /** Rendering in decimal and reading back in base ten gives n again. */
  lemma {:induction false} ToDecimalStringValue(n: nat)
    ensures DigitsValue(ToDecimalString(n), 10) == n
    decreases n
  {
    if n >= 10 {
      var s := ToDecimalString(n);
      assert s[..|s| - 1] == ToDecimalString(n / 10);
      ToDecimalStringValue(n / 10);
    }
  }

  lemma MulMonotone(a: nat, b: nat, c: nat, d: nat)
    requires a <= b && c <= d
    ensures a * c <= b * d
  {
  }

  /** Reading the same digits with a smaller weight gives a smaller number. */
  lemma {:induction false} DigitsValueMonotone(s: string, small: nat, large: nat)
    requires IsDecimal(s) && small <= large
    ensures DigitsValue(s, small) <= DigitsValue(s, large)
    decreases |s|
  {
    if s != [] {
      var p := s[..|s| - 1];
      DigitsValueMonotone(p, small, large);
      MulMonotone(DigitsValue(p, small), DigitsValue(p, large), small, large);
    }
  }

  /** On a string of decimal digits whose decimal value fits in u32, the digit
      loop never overflows: it fails exactly when some digit is not a digit of
      the radix, and otherwise yields the digits read in that radix. */
  lemma AccumulateDecimal(s: string, radix: nat)
    requires 2 <= radix <= 10 && IsDecimal(s) && DigitsValue(s, 10) <= U32_MAX
    ensures Accumulate(s, radix).Ok? <==> DigitsBelow(s, radix)
    ensures Accumulate(s, radix).Ok? ==> Accumulate(s, radix).value as int == DigitsValue(s, radix)
    ensures Accumulate(s, radix).Err? ==> Accumulate(s, radix).error == InvalidDigit
  {
    DigitsValueMonotone(s, radix, 10);
  }
}
