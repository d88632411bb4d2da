/**
  Python's `int(s, base)` for the two bases the programs use (10 for menu
  picks and list indices, 16 for typed addresses), and the decimal and
  upper-case hexadecimal renderings the programs print.
 */
module Numeric {
  import opened Wrappers

  predicate IsDecimalDigit(c: char) {
    '0' <= c <= '9'
  }

  predicate IsHexDigit(c: char) {
    IsDecimalDigit(c) || 'a' <= c <= 'f' || 'A' <= c <= 'F'
  }

  predicate IsBase(base: nat) {
    base == 10 || base == 16
  }

  predicate IsDigitIn(c: char, base: nat) {
    if base == 16 then IsHexDigit(c) else IsDecimalDigit(c)
  }

  predicate AllDigitsIn(s: string, base: nat) {
    forall i :: 0 <= i < |s| ==> IsDigitIn(s[i], base)
  }

  /** Python's `str.isdigit()` restricted to ASCII: non-empty and every character a decimal digit. */
  predicate IsDigitString(s: string) {
    |s| > 0 && AllDigitsIn(s, 10)
  }

  function DigitValue(c: char): (d: nat)
    requires IsHexDigit(c)
    ensures d < 16
    ensures IsDecimalDigit(c) ==> d < 10
  {
    if IsDecimalDigit(c) then c as int - '0' as int
    else if 'a' <= c <= 'f' then c as int - 'a' as int + 10
    else c as int - 'A' as int + 10
  }

  /** The value of a digit string read most significant digit first. */
  function DigitsValue(s: string, base: nat): nat
    requires IsBase(base) && AllDigitsIn(s, base)
  {
    if s == [] then 0
    else DigitsValue(s[..|s| - 1], base) * base + DigitValue(s[|s| - 1])
  }

  /**
    `int(s, base)`: an optional sign, for base 16 an optional `0x`/`0X`
    prefix, then at least one digit of the base. None stands for the
    ValueError Python raises on anything else.
   */
  function ParseInt(s: string, base: nat): Option<int>
    requires IsBase(base)
  {
    var negative := |s| > 0 && s[0] == '-';
    var unsigned := if |s| > 0 && (s[0] == '-' || s[0] == '+') then s[1..] else s;
    var digits :=
      if base == 16 && |unsigned| >= 2 && unsigned[0] == '0' && (unsigned[1] == 'x' || unsigned[1] == 'X')
      then unsigned[2..] else unsigned;
    if |digits| > 0 && AllDigitsIn(digits, base) then
      var magnitude: int := DigitsValue(digits, base);
      Some(if negative then -magnitude else magnitude)
    else
      None
  }

  /** The digit character for `d`, upper case above 9, as the `X` format prints it. */
  function DigitChar(d: nat): (c: char)
    requires d < 16
    ensures IsHexDigit(c) && DigitValue(c) == d
    ensures d < 10 ==> IsDecimalDigit(c)
  {
    if d < 10 then ('0' as int + d) as char else ('A' as int + d - 10) as char
  }

  /** The shortest rendering of `n` in `base` (`str(n)` for 10, `format(n, 'X')` for 16). */
  function ToDigits(n: nat, base: nat): (s: string)
    requires IsBase(base)
    ensures |s| > 0 && AllDigitsIn(s, base)
    decreases n
  {
    if n < base then [DigitChar(n)]
    else ToDigits(n / base, base) + [DigitChar(n % base)]
  }

  /** Reading back the rendering of `n` gives `n`. */
  lemma {:induction false} DigitsRoundTrip(n: nat, base: nat)
    requires IsBase(base)
    ensures DigitsValue(ToDigits(n, base), base) == n
    decreases n
  {
    var s := ToDigits(n, base);
    if n >= base {
      DigitsRoundTrip(n / base, base);
      assert s[..|s| - 1] == ToDigits(n / base, base);
    }
  }

  /** A string of `k` zero characters. */
  function Zeros(k: nat): (z: string)
    ensures |z| == k && AllDigitsIn(z, 10) && AllDigitsIn(z, 16)
  {
    if k == 0 then "" else "0" + Zeros(k - 1)
  }

  /** Leading zeros do not change the value of a digit string. */
  lemma {:induction false} LeadingZeros(k: nat, s: string, base: nat)
    requires IsBase(base) && AllDigitsIn(s, base)
    ensures AllDigitsIn(Zeros(k) + s, base)
    ensures DigitsValue(Zeros(k) + s, base) == DigitsValue(s, base)
    decreases |s|
  {
    var z := Zeros(k) + s;
    assert AllDigitsIn(z, base) by {
      forall i | 0 <= i < |z| ensures IsDigitIn(z[i], base) {
        if i < k { assert z[i] == Zeros(k)[i]; } else { assert z[i] == s[i - k]; }
      }
    }
    if s == [] {
      ZerosValue(k, base);
      assert z == Zeros(k);
    } else {
      LeadingZeros(k, s[..|s| - 1], base);
      assert z[..|z| - 1] == Zeros(k) + s[..|s| - 1];
      assert z[|z| - 1] == s[|s| - 1];
    }
  }

  lemma {:induction false} ZerosValue(k: nat, base: nat)
    requires IsBase(base)
    ensures DigitsValue(Zeros(k), base) == 0
  {
    if k > 0 {
      ZerosValue(k - 1, base);
      var z := Zeros(k);
      ZerosAppend(k - 1);
      assert z == Zeros(k - 1) + "0";
      assert z[..|z| - 1] == Zeros(k - 1);
    }
  }

  lemma {:induction false} ZerosAppend(k: nat)
    ensures Zeros(k) + "0" == "0" + Zeros(k)
  {
    if k > 0 {
      ZerosAppend(k - 1);
    }
  }

  /** `s` padded on the left with zeros to at least `width` characters. */
  function PadLeft(s: string, width: nat): (p: string)
  {
    if |s| >= width then s else Zeros(width - |s|) + s
  }

  /** `f"0x{a:016X}"`, the way the editor prints an address. */
  function FormatAddress(a: nat): (s: string)
  {
    "0x" + PadLeft(ToDigits(a, 16), 16)
  }

  /** An address printed by the editor, typed back in, parses as hex to the same address. */
  lemma AddressRoundTrip(a: nat)
    ensures ParseInt(FormatAddress(a), 16) == Some(a)
    ensures !IsDigitString(FormatAddress(a))
  {
    var d := ToDigits(a, 16);
    DigitsRoundTrip(a, 16);
    var p := PadLeft(d, 16);
    if |d| < 16 {
      LeadingZeros(16 - |d|, d, 16);
    }
    var s := FormatAddress(a);
    assert s[2..] == p;
    assert !IsDecimalDigit(s[1]);
  }

  /** A number printed in decimal, typed back in, parses to the same number. */
  lemma DecimalRoundTrip(n: nat)
    ensures IsDigitString(ToDigits(n, 10))
    ensures ParseInt(ToDigits(n, 10), 10) == Some(n)
  {
    DigitsRoundTrip(n, 10);
    var s := ToDigits(n, 10);
    assert s[0] != '-' && s[0] != '+' by { assert IsDecimalDigit(s[0]); }
  }

  /** An all-digit string is a valid decimal literal whose value is its digits' value. */
  lemma DigitStringParses(s: string)
    requires IsDigitString(s)
    ensures ParseInt(s, 10) == Some(DigitsValue(s, 10))
  {
    assert IsDecimalDigit(s[0]);
  }
}
