/** Positional numerals in bases 2 to 16 with lower-case digits: the text a
    `printf` integer conversion produces and the value `sscanf` reads back. */
module Numerals {

  predicate ValidBase(base: nat)
  {
    2 <= base <= 16
  }

  /** The character of one digit. */
  function DigitChar(d: nat): char
    requires d < 16
  {
    if d < 10 then ('0' as int + d) as char else ('a' as int + d - 10) as char
  }

  /** The value of one digit character; characters that are not digits read as 0. */
  function DigitValue(c: char): nat
  {
    if '0' <= c <= '9' then (c - '0') as nat
    else if 'a' <= c <= 'f' then (c - 'a') as nat + 10
    else 0
  }

  lemma DigitValueOfChar(d: nat)
    requires d < 16
    ensures DigitValue(DigitChar(d)) == d
  {
  }

  /** The shortest numeral of `n` (a single `0` for zero). */
  function ToDigits(n: nat, base: nat): (s: string)
    requires ValidBase(base)
    ensures |s| >= 1
    decreases n
  {
    if n < base then [DigitChar(n)]
    else ToDigits(n / base, base) + [DigitChar(n % base)]
  }

  /** The value of a numeral, most significant digit first. */
  function Parse(s: string, base: nat): nat
    decreases |s|
  {
    if |s| == 0 then 0
    else Parse(s[..|s| - 1], base) * base + DigitValue(s[|s| - 1])
  }

  /** `k` zero digits. */
  function Zeros(k: nat): (s: string)
    ensures |s| == k
    ensures forall i :: 0 <= i < k ==> s[i] == '0'
  {
    if k == 0 then [] else Zeros(k - 1) + ['0']
  }

  /** `s` widened with leading zeros to at least `width` characters, as a
      `printf` precision does for integers. */
  function PadLeft(s: string, width: nat): (r: string)
    ensures |r| == if |s| < width then width else |s|
  {
    if |s| < width then Zeros(width - |s|) + s else s
  }

  /** Appending a digit multiplies the value by the base and adds the digit. */
  lemma ParseSnoc(s: string, c: char, base: nat)
    ensures Parse(s + [c], base) == Parse(s, base) * base + DigitValue(c)
  {
    assert (s + [c])[..|s|] == s;
  }

  lemma DivMod(n: nat, base: nat)
    requires ValidBase(base)
    ensures (n / base) * base + n % base == n
  {
  }

  lemma ParseOneDigit(n: nat, base: nat)
    requires ValidBase(base) && n < base
    ensures Parse(ToDigits(n, base), base) == n
  {
    var c := DigitChar(n);
    assert ToDigits(n, base) == [c];
    DigitValueOfChar(n);
    ParseSnoc([], c, base);
    assert [] + [c] == [c];
  }

  lemma ParseManyDigits(n: nat, base: nat)
    requires ValidBase(base) && n >= base
    requires Parse(ToDigits(n / base, base), base) == n / base
    ensures Parse(ToDigits(n, base), base) == n
  {
    var q, d := n / base, n % base;
    DivMod(n, base);
    DigitValueOfChar(d);
    ParseSnoc(ToDigits(q, base), DigitChar(d), base);
  }

  /** Reading a numeral gives back the number it was printed from. */
  lemma {:induction false} ParseToDigits(n: nat, base: nat)
    requires ValidBase(base)
    ensures Parse(ToDigits(n, base), base) == n
    decreases n
  {
    if n < base {
      ParseOneDigit(n, base);
    } else {
      DivMod(n, base);
      ParseToDigits(n / base, base);
      ParseManyDigits(n, base);
    }
  }

  /** Leading zeros do not change the value of a numeral. */
  lemma {:induction false} ParseIgnoresLeadingZeros(k: nat, s: string, base: nat)
    ensures Parse(Zeros(k) + s, base) == Parse(s, base)
    decreases |s|, k
  {
    if |s| == 0 {
      assert Zeros(k) + s == Zeros(k);
      if k > 0 {
        assert Zeros(k)[..k - 1] == Zeros(k - 1);
        ParseIgnoresLeadingZeros(k - 1, [], base);
        assert Zeros(k - 1) + [] == Zeros(k - 1);
      }
    } else {
      var t := Zeros(k) + s;
      assert t[..|t| - 1] == Zeros(k) + s[..|s| - 1];
      ParseIgnoresLeadingZeros(k, s[..|s| - 1], base);
    }
  }

  /** Padding a numeral to a width keeps its value. */
  lemma ParsePadded(n: nat, base: nat, width: nat)
    requires ValidBase(base)
    ensures Parse(PadLeft(ToDigits(n, base), width), base) == n
  {
    var s := ToDigits(n, base);
    ParseToDigits(n, base);
    if |s| < width {
      ParseIgnoresLeadingZeros(width - |s|, s, base);
    }
  }

  /** A non-empty string of decimal digits, as `%d` reads without a sign. */
  predicate IsDecimalNumeral(s: string)
  {
    |s| > 0 && forall k :: 0 <= k < |s| ==> '0' <= s[k] <= '9'
  }

  /** Decimal numerals are made of decimal digits only. */
  lemma {:induction false} DecimalDigitsAreNumeral(n: nat)
    ensures IsDecimalNumeral(ToDigits(n, 10))
    decreases n
  {
    if n >= 10 {
      DecimalDigitsAreNumeral(n / 10);
    }
  }
}
