/**
 Python's integer-to-hexadecimal formatting, as used by the format specs
 `{:02x}` and `{:06X}`: base-16 digits without prefix, and sign-aware
 zero padding up to a minimum field width. `ParseHex` is its inverse.
 */
module HexFormat {

  /** The digit for a value below 16, lower- or upper-case. */
  function Digit(d: nat, upper: bool): (c: char)
    requires d < 16
  {
    if d < 10 then '0' + d as char
    else if upper then 'A' + (d - 10) as char
    else 'a' + (d - 10) as char
  }

  predicate IsLowerHexDigit(c: char) {
    '0' <= c <= '9' || 'a' <= c <= 'f'
  }

  predicate IsUpperHexDigit(c: char) {
    '0' <= c <= '9' || 'A' <= c <= 'F'
  }

  predicate IsHexDigit(c: char) {
    IsLowerHexDigit(c) || IsUpperHexDigit(c)
  }

  /** All characters are digits of the requested case. */
  predicate AllDigits(s: string, upper: bool) {
    forall i :: 0 <= i < |s| ==>
      if upper then IsUpperHexDigit(s[i]) else IsLowerHexDigit(s[i])
  }

  /** The value of one hexadecimal digit, either case. */
  function DigitValue(c: char): (d: nat)
    requires IsHexDigit(c)
    ensures d < 16
  {
    if '0' <= c <= '9' then (c - '0') as nat
    else if 'a' <= c <= 'f' then (c - 'a') as nat + 10
    else (c - 'A') as nat + 10
  }

  /** Base-16 digits of `n`, most significant first, no leading zeros ("0" for 0). */
  function Digits(n: nat, upper: bool): (s: string)
    decreases n
  {
    if n < 16 then [Digit(n, upper)]
    else Digits(n / 16, upper) + [Digit(n % 16, upper)]
  }

  /** The value of a string of hexadecimal digits; the empty string is 0. */
  function ParseHex(s: string): (n: nat)
    requires forall i :: 0 <= i < |s| ==> IsHexDigit(s[i])
  {
    if s == [] then 0 else ParseHex(s[..|s| - 1]) * 16 + DigitValue(s[|s| - 1])
  }

  function Pow16(k: nat): (p: nat)
    ensures p >= 1
  {
    if k == 0 then 1 else 16 * Pow16(k - 1)
  }

  /** `width - |s|` zeros in front of `s`, or `s` itself when it is already that wide. */
  function ZeroPad(s: string, width: nat): (r: string)
  {
    if |s| >= width then s else seq(width - |s|, _ => '0') + s
  }

  /** Python's `format(n, "0<width>x")` (or `X` when `upper`): the sign, then the
      digits zero-padded so that sign and digits together fill `width`. */
  function FormatHex(n: int, width: nat, upper: bool): (r: string)
  {
    if n < 0 then "-" + ZeroPad(Digits(-n, upper), if width >= 1 then width - 1 else 0)
    else ZeroPad(Digits(n, upper), width)
  }

  lemma {:induction false} DigitsAreDigits(n: nat, upper: bool)
    ensures AllDigits(Digits(n, upper), upper)
    ensures forall i :: 0 <= i < |Digits(n, upper)| ==> IsHexDigit(Digits(n, upper)[i])
    decreases n
  {
    if n >= 16 {
      DigitsAreDigits(n / 16, upper);
    }
  }

  lemma DigitRoundTrip(d: nat, upper: bool)
    requires d < 16
    ensures IsHexDigit(Digit(d, upper)) && DigitValue(Digit(d, upper)) == d
  {
  }

  /** Reading the digits back gives the number: `ParseHex` inverts `Digits`. */
  lemma {:induction false} ParseDigits(n: nat, upper: bool)
    ensures forall i :: 0 <= i < |Digits(n, upper)| ==> IsHexDigit(Digits(n, upper)[i])
    ensures ParseHex(Digits(n, upper)) == n
    decreases n
  {
    DigitsAreDigits(n, upper);
    var s := Digits(n, upper);
    if n < 16 {
      DigitRoundTrip(n, upper);
      assert s[..0] == [];
    } else {
      ParseDigits(n / 16, upper);
      DigitRoundTrip(n % 16, upper);
      assert s[..|s| - 1] == Digits(n / 16, upper);
    }
  }

  /** `n` fits in `k >= 1` digits exactly when it is below 16^k. */
  lemma {:induction false} DigitsLength(n: nat, k: nat, upper: bool)
    requires k >= 1
    ensures |Digits(n, upper)| <= k <==> n < Pow16(k)
    decreases n
  {
    if n >= 16 {
      if k == 1 {
        assert Pow16(1) == 16;
        assert |Digits(n, upper)| >= 2;
      } else {
        DigitsLength(n / 16, k - 1, upper);
      }
    }
  }

  /** Leading zeros do not change the value. */
  lemma {:induction false} ParseZeroPad(s: string, width: nat)
    requires forall i :: 0 <= i < |s| ==> IsHexDigit(s[i])
    ensures forall i :: 0 <= i < |ZeroPad(s, width)| ==> IsHexDigit(ZeroPad(s, width)[i])
    ensures ParseHex(ZeroPad(s, width)) == ParseHex(s)
    decreases width
  {
    if |s| < width {
      if width - |s| == 1 {
        assert ZeroPad(s, width) == "0" + s;
        ParseLeadingZero(s);
      } else {
        assert ZeroPad(s, width) == "0" + ZeroPad(s, width - 1);
        ParseZeroPad(s, width - 1);
        ParseLeadingZero(ZeroPad(s, width - 1));
      }
    }
  }

  lemma {:induction false} ParseLeadingZero(s: string)
    requires forall i :: 0 <= i < |s| ==> IsHexDigit(s[i])
    ensures forall i :: 0 <= i < |"0" + s| ==> IsHexDigit(("0" + s)[i])
    ensures ParseHex("0" + s) == ParseHex(s)
    decreases |s|
  {
    if s != [] {
      ParseLeadingZero(s[..|s| - 1]);
      assert ("0" + s)[..|s|] == "0" + s[..|s| - 1];
    }
  }

  lemma ZeroPadDigits(s: string, width: nat, upper: bool)
    requires AllDigits(s, upper)
    ensures AllDigits(ZeroPad(s, width), upper)
    ensures |ZeroPad(s, width)| == if |s| >= width then |s| else width
  {
  }

  /** A non-negative value below 16^width formats to exactly `width` digits of
      the requested case, and those digits read back as the value. */
  lemma FormatFixedWidth(n: int, width: nat, upper: bool)
    requires width >= 1 && 0 <= n < Pow16(width)
    ensures |FormatHex(n, width, upper)| == width
    ensures AllDigits(FormatHex(n, width, upper), upper)
    ensures forall i :: 0 <= i < width ==> IsHexDigit(FormatHex(n, width, upper)[i])
    ensures ParseHex(FormatHex(n, width, upper)) == n
  {
    DigitsLength(n, width, upper);
    DigitsAreDigits(n, upper);
    ZeroPadDigits(Digits(n, upper), width, upper);
    ParseDigits(n, upper);
    ParseZeroPad(Digits(n, upper), width);
  }

  /** A value of 16^width or more overflows the field: more than `width` characters. */
  lemma FormatOverflows(n: int, width: nat, upper: bool)
    requires width >= 1 && n >= Pow16(width)
    ensures |FormatHex(n, width, upper)| > width
  {
    DigitsLength(n, width, upper);
  }

  /** A negative value starts with a minus sign. */
  lemma FormatNegative(n: int, width: nat, upper: bool)
    requires n < 0
    ensures |FormatHex(n, width, upper)| >= 2 && FormatHex(n, width, upper)[0] == '-'
  {
  }
}
