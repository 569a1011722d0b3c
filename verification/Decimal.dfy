/** Decimal numerals: the digits of a number, zero padding, and reading back. */
module Decimal {
  function Digit(d: nat): (c: char)
    requires d < 10
    ensures IsDigit(c) && c as int == '0' as int + d
  {
    ('0' as int + d) as char
  }

  predicate IsDigit(c: char) { '0' <= c <= '9' }

  predicate IsNumeral(s: string) { forall i :: 0 <= i < |s| ==> IsDigit(s[i]) }

  function Digits(n: nat): (s: string)
    ensures s != "" && IsNumeral(s)
  {
    if n < 10 then [Digit(n)] else Digits(n / 10) + [Digit(n % 10)]
  }

  /** The number a numeral stands for. */
  function ValueOf(s: string): nat
    requires IsNumeral(s)
  {
    if s == "" then 0 else 10 * ValueOf(s[..|s| - 1]) + (s[|s| - 1] as int - '0' as int)
  }

  function Pow10(k: nat): (r: nat)
    ensures r >= 1 && (k > 0 ==> r >= 10)
  {
    if k == 0 then 1 else 10 * Pow10(k - 1)
  }

  /** A numeral reads back as its number and wastes no digit. */
  lemma {:induction false} DigitsValue(n: nat)
    ensures ValueOf(Digits(n)) == n
    ensures Digits(n)[0] == '0' ==> n == 0
  {
    if n >= 10 {
      DigitsValue(n / 10);
      var s := Digits(n);
      assert s[..|s| - 1] == Digits(n / 10);
    }
  }

  lemma {:induction false} DigitsLength(n: nat, k: nat)
    requires k > 0
    ensures |Digits(n)| <= k <==> n < Pow10(k)
    decreases k
  {
    if n >= 10 {
      assert |Digits(n)| == |Digits(n / 10)| + 1;
      if k == 1 {
        assert Pow10(1) == 10 * Pow10(0);
      } else {
        DigitsLength(n / 10, k - 1);
      }
    }
  }

  /** Zero-padded to at least `width` digits. */
  function Padded(n: nat, width: nat): (s: string)
    ensures IsNumeral(s) && |s| >= width && s != ""
  {
    Zeros(if |Digits(n)| < width then width - |Digits(n)| else 0) + Digits(n)
  }

  function Zeros(k: nat): (s: string)
    ensures |s| == k && IsNumeral(s) && forall i :: 0 <= i < k ==> s[i] == '0'
  {
    seq(k, _ => '0')
  }

  lemma {:induction false} LeadingZeros(k: nat, s: string)
    requires IsNumeral(s)
    ensures ValueOf(Zeros(k) + s) == ValueOf(s)
    decreases |s|, k
  {
    var all := Zeros(k) + s;
    if s == "" {
      if k > 0 {
        LeadingZeros(k - 1, s);
        assert all[..|all| - 1] == Zeros(k - 1) + s;
      }
    } else {
      LeadingZeros(k, s[..|s| - 1]);
      assert all[..|all| - 1] == Zeros(k) + s[..|s| - 1];
    }
  }

  lemma PaddedValue(n: nat, width: nat)
    ensures ValueOf(Padded(n, width)) == n
  {
    DigitsValue(n);
    LeadingZeros(if |Digits(n)| < width then width - |Digits(n)| else 0, Digits(n));
  }

  lemma TenDigits(value: nat)
    requires value < 0x1_0000_0000
    ensures |Digits(value)| <= 10
  {
    DigitsLength(value, 10);
    assert Pow10(2) == 100;
    assert Pow10(4) == 100 * Pow10(2);
    assert Pow10(6) == 100 * Pow10(4);
    assert Pow10(8) == 100 * Pow10(6);
    assert Pow10(10) == 100 * Pow10(8);
  }

  lemma LastDigit(n: nat)
    ensures Digits(n)[|Digits(n)| - 1] == Digit(n % 10)
    ensures n >= 10 ==> Digits(n)[..|Digits(n)| - 1] == Digits(n / 10)
    ensures n < 10 ==> |Digits(n)| == 1
  {
  }

  /** The digit loop of write_u32_width: the numeral ends up right-aligned in a
      buffer of zeros. */
  method StoreDigits(digits: array<char>, value: nat) returns (written: nat)
    requires |Digits(value)| <= digits.Length && forall i :: 0 <= i < digits.Length ==> digits[i] == '0'
    modifies digits
    ensures written == |Digits(value)|
    ensures digits[..] == Zeros(digits.Length - written) + Digits(value)
  {
    ghost var all, size := Digits(value), |Digits(value)|;
    var rest := value;
    written := 0;
    assert all[..size] == all;
    while true
      invariant written < size && Digits(rest) == all[..size - written]
      invariant forall i :: 0 <= i < digits.Length - written ==> digits[i] == '0'
      invariant forall i :: size - written <= i < size ==> digits[digits.Length - size + i] == all[i]
      decreases rest
    {
      LastDigit(rest);
      written := written + 1;
      digits[digits.Length - written] := Digit(rest % 10);
      if rest < 10 {
        break;
      }
      assert all[..size - written + 1][..size - written] == all[..size - written];
      rest := rest / 10;
    }
    assert forall i :: digits.Length - size <= i < digits.Length ==> digits[i] == all[i - (digits.Length - size)];
  }

  /** write_u32_width with its ten-place buffer. */
  method WriteNumber(value: nat, width: nat) returns (text: string)
    requires value < 0x1_0000_0000
    ensures text == Padded(value, if width < 10 then width else 10)
  {
    TenDigits(value);
    var digits := new char[10](_ => '0');
    var written := StoreDigits(digits, value);
    var least := if width < 10 then width else 10;
    var length := if written < least then least else written;
    text := digits[10 - length..];
    assert (Zeros(10 - written) + Digits(value))[10 - length..] == Zeros(length - written) + Digits(value);
  }

  predicate StartsWithNonDigit(s: string) { s != "" && !IsDigit(s[0]) }

  /** A numeral ends where the first other character stands. */
  lemma NumeralSplits(a: string, x: string, b: string, y: string)
    requires IsNumeral(a) && IsNumeral(b) && StartsWithNonDigit(x) && StartsWithNonDigit(y)
    requires a + x == b + y
    ensures a == b && x == y
  {
    var s := a + x;
    assert s[|a|] == x[0] && s[|b|] == (b + y)[|b|] == y[0];
    assert forall i :: 0 <= i < |a| ==> s[i] == a[i];
    assert forall i :: 0 <= i < |b| ==> s[i] == (b + y)[i] == b[i];
    assert |a| == |b|;
    assert a == s[..|a|] && b == s[..|b|];
    assert x == s[|a|..] && y == s[|b|..];
  }

  lemma DigitsInjective(m: nat, n: nat)
    requires Digits(m) == Digits(n)
    ensures m == n
  {
    DigitsValue(m);
    DigitsValue(n);
  }

  lemma SamePrefix(p: string, x: string, y: string)
    requires p + x == p + y
    ensures x == y
  {
    assert (p + x)[|p|..] == x && (p + y)[|p|..] == y;
  }
}
