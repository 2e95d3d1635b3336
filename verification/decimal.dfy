/** Decimal text of integers: what Java's `String.valueOf(int)` prints, the
    zero-padded numbers a date pattern prints, and the digit parser that reads
    both back. */
module Decimal {
  import opened Wrappers

  predicate IsDigit(c: char) {
    '0' <= c <= '9'
  }

  predicate AllDigits(s: string) {
    forall i :: 0 <= i < |s| ==> IsDigit(s[i])
  }

  function DigitValue(c: char): (d: nat)
    requires IsDigit(c)
    ensures d < 10
  {
    c as int - '0' as int
  }

  function DigitChar(d: nat): (c: char)
    requires d < 10
    ensures IsDigit(c) && DigitValue(c) == d
  {
    "0123456789"[d]
  }

  lemma DigitCharOfValue(c: char)
    requires IsDigit(c)
    ensures DigitChar(DigitValue(c)) == c
  {
  }

  /** The number a string of digits denotes, most significant digit first;
      leading zeros are allowed and the empty string denotes 0. */
  function DigitsValue(s: string): nat
    requires AllDigits(s)
  {
    if |s| == 0 then 0 else DigitsValue(s[..|s| - 1]) * 10 + DigitValue(s[|s| - 1])
  }

  /** The canonical decimal form of a natural number: at least one digit and
      no leading zero unless the number is 0 itself. */
  predicate Canonical(s: string) {
    |s| >= 1 && AllDigits(s) && (s[0] == '0' ==> |s| == 1)
  }

  /** Decimal form of a natural number. */
  function NatToDecimal(n: nat): (s: string)
    ensures Canonical(s)
    ensures DigitsValue(s) == n
  {
    if n < 10 then [DigitChar(n)]
    else
      var p := NatToDecimal(n / 10);
      var s := p + [DigitChar(n % 10)];
      assert s[..|s| - 1] == p;
      s
  }

  lemma {:induction false} CanonicalNonZero(s: string)
    requires Canonical(s) && s[0] != '0'
    ensures DigitsValue(s) >= 1
  {
    if |s| > 1 {
      var p := s[..|s| - 1];
      assert p[0] == s[0];
      CanonicalNonZero(p);
    }
  }

  /** Reading a canonical string and printing the number again gives the same
      string back: canonical forms and numbers are in one-to-one correspondence. */
  lemma {:induction false} NatToDecimalOfValue(s: string)
    requires Canonical(s)
    ensures NatToDecimal(DigitsValue(s)) == s
  {
    var last := s[|s| - 1];
    DigitCharOfValue(last);
    if |s| > 1 {
      var p := s[..|s| - 1];
      assert p[0] == s[0];
      CanonicalNonZero(p);
      NatToDecimalOfValue(p);
      var v := DigitsValue(s);
      assert v / 10 == DigitsValue(p) && v % 10 == DigitValue(last);
      assert s == p + [last];
    }
  }

  /** Java `String.valueOf` of an integer: a minus sign for negative numbers,
      then the canonical digits of the magnitude. */
  function IntToDecimal(n: int): (s: string)
    ensures |s| >= 1
    ensures s[0] == '-' <==> n < 0
    ensures n >= 0 ==> Canonical(s) && DigitsValue(s) == n
    ensures n < 0 ==> Canonical(s[1..]) && DigitsValue(s[1..]) == -n && s[1..] != "0"
  {
    if n < 0 then
      var s := "-" + NatToDecimal(-n);
      assert s[1..] == NatToDecimal(-n);
      s
    else NatToDecimal(n)
  }

  /** Reads an optional minus sign followed by at least one digit. */
  function ParseInt(s: string): (r: Option<int>)
  {
    if |s| >= 2 && s[0] == '-' && AllDigits(s[1..]) then Some(0 - DigitsValue(s[1..]) as int)
    else if |s| >= 1 && AllDigits(s) then Some(DigitsValue(s))
    else None
  }

  /** The text `IntToDecimal` can produce: canonical digits, with a minus sign
      in front only of a non-zero magnitude. */
  predicate CanonicalInt(s: string) {
    Canonical(s) || (|s| >= 2 && s[0] == '-' && Canonical(s[1..]) && s[1..] != "0")
  }

  lemma ParseIntOfDecimal(n: int)
    ensures ParseInt(IntToDecimal(n)) == Some(n)
    ensures CanonicalInt(IntToDecimal(n))
  {
  }

  lemma DecimalOfParseInt(s: string)
    requires CanonicalInt(s)
    ensures ParseInt(s).Some?
    ensures IntToDecimal(ParseInt(s).value) == s
  {
    if s[0] == '-' {
      NatToDecimalOfValue(s[1..]);
      CanonicalNonZero(s[1..]);
      assert s == "-" + s[1..];
    } else {
      NatToDecimalOfValue(s);
    }
  }

  /** `k` zero characters. */
  function Zeros(k: nat): (z: string)
    ensures |z| == k && AllDigits(z)
    ensures forall i :: 0 <= i < k ==> z[i] == '0'
  {
    if k == 0 then "" else "0" + Zeros(k - 1)
  }

  function Max(a: int, b: int): int {
    if a < b then b else a
  }

  /** A number printed with at least `width` digits, padded on the left with
      zeros, as a date pattern letter repeated `width` times prints it. */
  function ZeroPad(n: nat, width: nat): (s: string)
    ensures AllDigits(s)
    ensures |s| == Max(width, |NatToDecimal(n)|)
    ensures DigitsValue(s) == n
  {
    var d := NatToDecimal(n);
    var z := Zeros(if |d| < width then width - |d| else 0);
    LeadingZeros(z, d);
    z + d
  }

  /** Zeros in front do not change the value of a digit string. */
  lemma {:induction false} LeadingZeros(z: string, s: string)
    requires AllDigits(z) && AllDigits(s)
    requires forall i :: 0 <= i < |z| ==> z[i] == '0'
    ensures AllDigits(z + s)
    ensures DigitsValue(z + s) == DigitsValue(s)
  {
    if |s| == 0 {
      assert z + s == z;
      AllZerosValue(z);
    } else {
      var p := s[..|s| - 1];
      assert (z + s)[..|z + s| - 1] == z + p;
      LeadingZeros(z, p);
    }
  }

  lemma {:induction false} AllZerosValue(z: string)
    requires AllDigits(z)
    requires forall i :: 0 <= i < |z| ==> z[i] == '0'
    ensures DigitsValue(z) == 0
  {
    if |z| > 0 {
      AllZerosValue(z[..|z| - 1]);
    }
  }

  /** A number below 10^k has at most k digits. */
  lemma {:induction false} DecimalLengthBound(n: nat, k: nat)
    requires k >= 1 && n < Pow10(k)
    ensures |NatToDecimal(n)| <= k
  {
    if n >= 10 {
      assert k >= 2;
      DecimalLengthBound(n / 10, k - 1);
    }
  }

  function Pow10(k: nat): (p: nat)
    ensures p >= 1
  {
    if k == 0 then 1 else 10 * Pow10(k - 1)
  }

  /** A number below 10^width is printed in exactly `width` digits. */
  lemma ZeroPadLength(n: nat, width: nat)
    requires width >= 1 && n < Pow10(width)
    ensures |ZeroPad(n, width)| == width
  {
    DecimalLengthBound(n, width);
  }

  /** Reading a fixed-width digit field and padding its value to the same
      width gives the field back: zero padding loses nothing. */
  lemma {:induction false} ZeroPadOfValue(s: string)
    requires |s| >= 1 && AllDigits(s)
    ensures ZeroPad(DigitsValue(s), |s|) == s
  {
    if s[0] != '0' || |s| == 1 {
      NatToDecimalOfValue(s);
    } else {
      var t := s[1..];
      assert s == "0" + t;
      LeadingZeros("0", t);
      ZeroPadOfValue(t);
      var d := NatToDecimal(DigitsValue(t));
      assert Zeros(|s| - |d|) == "0" + Zeros(|t| - |d|);
    }
  }
}
