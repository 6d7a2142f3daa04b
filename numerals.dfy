/**
 * Decimal numerals as Swift reads and writes them for `Int`:
 * `Int(text)` (a failable parse, radix 10) and string interpolation `"\(n)"`.
 * `Int` is 64 bits wide on the platforms the app runs on, so a numeral whose
 * value does not fit is rejected by the parse.
 */
module Numerals {
  import opened Options

  const Int64Min: int := -0x8000_0000_0000_0000
  const Int64Max: int := 0x7FFF_FFFF_FFFF_FFFF

  predicate InInt64(v: int) {
    Int64Min <= v <= Int64Max
  }

  predicate IsDigit(c: char) {
    '0' <= c <= '9'
  }

  predicate AllDigits(s: string) {
    forall i :: 0 <= i < |s| ==> IsDigit(s[i])
  }

  function DigitValue(c: char): (d: nat)
    requires IsDigit(c)
    ensures d < 10
  {
    c as int - '0' as int
  }

  function DigitChar(d: nat): (c: char)
    requires d < 10
    ensures IsDigit(c) && DigitValue(c) == d
  {
    (d + '0' as int) as char
  }

  /** `k` zero characters. */
  function Zeros(k: nat): (z: string)
    ensures |z| == k && AllDigits(z)
    ensures forall i :: 0 <= i < k ==> z[i] == '0'
  {
    if k == 0 then [] else Zeros(k - 1) + ['0']
  }

  /** The value of a string of decimal digits, most significant digit first. */
  function DigitsValue(s: string): nat
    requires AllDigits(s)
  {
    if s == [] then 0 else 10 * DigitsValue(s[..|s| - 1]) + DigitValue(s[|s| - 1])
  }

  /**
   * The canonical decimal numeral of `n`: digits only, never empty, and
   * without a leading zero unless the value is zero itself.
   */
  function NatToString(n: nat): (r: string)
    ensures |r| > 0 && AllDigits(r)
    ensures r[0] == '0' <==> n == 0
    ensures n == 0 ==> r == "0"
  {
    if n < 10 then [DigitChar(n)] else NatToString(n / 10) + [DigitChar(n % 10)]
  }

  /** Swift's `"\(v)"` for an `Int`: a minus sign before the magnitude of a negative value. */
  function IntToString(v: int): (r: string)
    ensures |r| > 0
    ensures forall i :: 0 <= i < |r| ==> IsDigit(r[i]) || r[i] == '-'
    ensures r[0] == '-' <==> v < 0
  {
    if v < 0 then "-" + NatToString(-v) else NatToString(v)
  }

  /** `Some(v)` when `v` fits in 64 bits, `None` when it overflows. */
  function Checked(v: int): Option<int> {
    if InInt64(v) then Some(v) else None
  }

  /** The value of magnitude `n` under a sign prefix `""`, `"+"` or `"-"`. */
  function ApplySign(sign: string, n: nat): int {
    if sign == "-" then -(n as int) else n
  }

  /**
   * Swift's `Int(text)`: an optional `+` or `-`, then one or more ASCII
   * digits and nothing else; `None` for anything else and for a value
   * outside the 64-bit range.
   */
  function ParseInt(s: string): (r: Option<int>)
    ensures r.Some? ==> InInt64(r.value)
    ensures |s| == 0 ==> r.None?
    ensures s == "+" || s == "-" ==> r.None?
  {
    var sign := if |s| > 0 && (s[0] == '+' || s[0] == '-') then s[..1] else "";
    var body := s[|sign|..];
    if body == [] || !AllDigits(body) then None else Checked(ApplySign(sign, DigitsValue(body)))
  }

  lemma {:induction false} DigitsValueOfNatToString(n: nat)
    ensures DigitsValue(NatToString(n)) == n
  {
    var r := NatToString(n);
    if n >= 10 {
      var q := NatToString(n / 10);
      assert r == q + [DigitChar(n % 10)];
      assert r[..|r| - 1] == q;
      DigitsValueOfNatToString(n / 10);
    }
  }

  /** A zero in front of a string of digits does not change its value. */
  lemma {:induction false} DigitsValueLeadingZero(s: string)
    requires AllDigits(s)
    ensures AllDigits(['0'] + s) && DigitsValue(['0'] + s) == DigitsValue(s)
  {
    var z := ['0'] + s;
    if s != [] {
      assert z[..|z| - 1] == ['0'] + s[..|s| - 1];
      assert z[|z| - 1] == s[|s| - 1];
      DigitsValueLeadingZero(s[..|s| - 1]);
    }
  }

  /** Any number of leading zeros are dropped by the parse. */
  lemma {:induction false} DigitsValueLeadingZeros(k: nat, s: string)
    requires AllDigits(s)
    ensures AllDigits(Zeros(k) + s) && DigitsValue(Zeros(k) + s) == DigitsValue(s)
  {
    if k > 0 {
      var t := ['0'] + s;
      assert Zeros(k) + s == Zeros(k - 1) + t;
      DigitsValueLeadingZero(s);
      DigitsValueLeadingZeros(k - 1, t);
      calc {
        DigitsValue(Zeros(k) + s);
        DigitsValue(Zeros(k - 1) + t);
        DigitsValue(t);
        DigitsValue(s);
      }
    } else {
      assert Zeros(k) + s == s;
    }
  }

  /**
   * Text made of an optional sign, some zeros and then the canonical digits
   * of a magnitude parses to the signed value when that value fits in 64
   * bits, and to `None` when it does not.
   */
  lemma ParseIntNumeral(sign: string, k: nat, n: nat)
    requires sign == "" || sign == "+" || sign == "-"
    ensures ParseInt(sign + (Zeros(k) + NatToString(n))) == Checked(ApplySign(sign, n))
  {
    DigitsValueLeadingZeros(k, NatToString(n));
    DigitsValueOfNatToString(n);
    ParseIntSigned(sign, Zeros(k) + NatToString(n));
  }

  /** The parse of a sign (or none) followed by at least one digit. */
  lemma ParseIntSigned(sign: string, digits: string)
    requires sign == "" || sign == "+" || sign == "-"
    requires digits != [] && AllDigits(digits)
    ensures ParseInt(sign + digits) == Checked(ApplySign(sign, DigitsValue(digits)))
  {
  }

  /** Reading back what `"\(v)"` writes gives `v` again. */
  lemma ParseIntOfIntToString(v: int)
    requires InInt64(v)
    ensures ParseInt(IntToString(v)) == Some(v)
  {
    var sign := if v < 0 then "-" else "";
    var n: nat := if v < 0 then -v else v;
    assert IntToString(v) == sign + NatToString(n);
    DigitsValueOfNatToString(n);
    ParseIntSigned(sign, NatToString(n));
    assert ApplySign(sign, n) == v;
  }

  /** A character other than a digit, or a sign anywhere but in front, makes the parse fail. */
  lemma ParseIntRejectsStrayChar(s: string, i: nat)
    requires i < |s| && !IsDigit(s[i])
    requires i == 0 ==> s[0] != '+' && s[0] != '-'
    ensures ParseInt(s) == None
  {
  }

  /** Two values render alike only when they are equal. */
  lemma IntToStringInjective(a: int, b: int)
    requires InInt64(a) && InInt64(b)
    requires IntToString(a) == IntToString(b)
    ensures a == b
  {
    ParseIntOfIntToString(a);
    ParseIntOfIntToString(b);
  }
}
