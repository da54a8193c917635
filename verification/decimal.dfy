/** Decimal rendering and reading of integers: `String(n)`, the two-digit
    `padStart(2, '0')` used for months and days, and the value of a run of
    ASCII digits (what unary `+` gives for a string that matches `^\d+$`). */
module Decimal {
  import opened Text

  function DigitChar(d: nat): (c: char)
    requires d < 10
    ensures IsDigit(c) && c as int - '0' as int == d
  {
    ('0' as int + d) as char
  }

  function DigitValue(c: char): (d: nat)
    requires IsDigit(c)
    ensures d < 10
  {
    c as int - '0' as int
  }

  /** `String(n)` for a non-negative integer: digits only, no leading zero. */
  function NatToString(n: nat): (r: string)
    ensures |r| > 0 && AllDigits(r)
    ensures r[0] == '0' <==> n == 0
    ensures n < 10 <==> |r| == 1
    decreases n
  {
    if n < 10 then [DigitChar(n)] else NatToString(n / 10) + [DigitChar(n % 10)]
  }

  /** `String(i)` for any integer. */
  function IntToString(i: int): string
  {
    if i < 0 then "-" + NatToString(-i) else NatToString(i)
  }

  /** The number a string of decimal digits denotes (leading zeros allowed). */
  function DigitsValue(s: string): nat
    requires AllDigits(s)
    decreases |s|
  {
    if |s| == 0 then 0 else 10 * DigitsValue(s[..|s| - 1]) + DigitValue(s[|s| - 1])
  }

  /** Reading back what `NatToString` wrote gives the number. */
  lemma {:induction false} NatToStringValue(n: nat)
    ensures DigitsValue(NatToString(n)) == n
    decreases n
  {
    if n >= 10 {
      var r := NatToString(n);
      assert r[..|r| - 1] == NatToString(n / 10);
      NatToStringValue(n / 10);
    }
  }

  /** Two-digit numbers print with two digits, four-digit numbers with four. */
  lemma NatToStringLength(n: nat)
    ensures 10 <= n < 100 ==> |NatToString(n)| == 2
    ensures 1000 <= n < 10000 ==> |NatToString(n)| == 4
  {
    if 1000 <= n < 10000 {
      assert |NatToString(n / 10)| == 3 by {
        assert |NatToString(n / 100)| == 2 by {
          assert |NatToString(n / 1000)| == 1;
        }
      }
    }
  }

  /** `String(n).padStart(2, '0')`. */
  function Pad2(n: nat): (r: string)
    ensures AllDigits(r)
    ensures n < 100 ==> |r| == 2 && DigitsValue(r) == n
  {
    NatToStringLength(n);
    NatToStringValue(n);
    var s := NatToString(n);
    var r := PadStart(s, 2, '0');
    assert n < 10 ==> r == ['0'] + s && r[..1] == ['0'];
    r
  }

  /** A digit string that does not start with `0` denotes a positive number. */
  lemma {:induction false} LeadingDigitPositive(s: string)
    requires AllDigits(s) && |s| > 0 && s[0] != '0'
    ensures DigitsValue(s) > 0
    decreases |s|
  {
    if |s| > 1 {
      var init := s[..|s| - 1];
      assert init[0] == s[0];
      LeadingDigitPositive(init);
    }
  }

  /** Writing out the value of a digit string without leading zeros gives
      the string back. */
  lemma {:induction false} DigitsValueString(s: string)
    requires AllDigits(s) && |s| > 0 && (s[0] != '0' || |s| == 1)
    ensures NatToString(DigitsValue(s)) == s
    decreases |s|
  {
    var n := DigitsValue(s);
    if |s| == 1 {
      assert s == [DigitChar(DigitValue(s[0]))];
    } else {
      var init := s[..|s| - 1];
      assert init[0] == s[0];
      LeadingDigitPositive(init);
      DigitsValueString(init);
      var v := DigitsValue(init);
      var c := DigitValue(s[|s| - 1]);
      assert n == 10 * v + c && n / 10 == v && n % 10 == c;
      assert s == init + [DigitChar(c)];
    }
  }

  /** `padStart(2, '0')` of a two-digit string's value gives the string. */
  lemma Pad2DigitsValue(s: string)
    requires AllDigits(s) && |s| == 2
    ensures Pad2(DigitsValue(s)) == s
  {
    var n := DigitsValue(s);
    assert n == 10 * DigitValue(s[0]) + DigitValue(s[1]) by {
      var init := s[..1];
      assert init == [s[0]] && init[..0] == [];
      assert DigitsValue(init) == DigitValue(s[0]);
    }
    if s[0] == '0' {
      assert n == DigitValue(s[1]) && n < 10;
      assert NatToString(n) == [s[1]];
      assert Pad2(n) == ['0'] + [s[1]];
    } else {
      DigitsValueString(s);
      NatToStringLength(n);
    }
  }
}
