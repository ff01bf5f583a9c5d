/**
 * Decimal numerals: digits, the decimal rendering of a natural number,
 * three-digit grouping (the shape of `Number.prototype.toLocaleString`)
 * and one-fraction-digit rendering (`Number.prototype.toFixed(1)`),
 * all over exact arithmetic.
 */
module Numerals {

  predicate IsDigit(c: char) {
    '0' <= c <= '9'
  }

  predicate AllDigits(s: string) {
    forall i :: 0 <= i < |s| ==> IsDigit(s[i])
  }

  function DigitChar(d: nat): (c: char)
    requires d < 10
    ensures IsDigit(c)
  {
    ('0' as int + d) as char
  }

  function DigitValue(c: char): (d: nat)
    requires IsDigit(c)
    ensures d < 10
  {
    c as int - '0' as int
  }

  lemma DigitRoundTrip(d: nat)
    requires d < 10
    ensures DigitValue(DigitChar(d)) == d
  {
  }

  /** The value of a string of decimal digits, most significant first; "" is 0. */
  function DigitsValue(s: string): (n: nat)
    requires AllDigits(s)
    decreases |s|
  {
    if s == [] then 0 else 10 * DigitsValue(s[..|s| - 1]) + DigitValue(s[|s| - 1])
  }

  /** The shortest decimal numeral of `n`. */
  function NatToString(n: nat): (r: string)
    ensures |r| >= 1 && AllDigits(r)
    decreases n
  {
    if n < 10 then [DigitChar(n)] else NatToString(n / 10) + [DigitChar(n % 10)]
  }

  /** Reading back the numeral of `n` gives `n`. */
  lemma {:induction false} NatToStringValue(n: nat)
    ensures DigitsValue(NatToString(n)) == n
    decreases n
  {
    var s := NatToString(n);
    if n < 10 {
      DigitRoundTrip(n);
      assert s[..|s| - 1] == [];
    } else {
      NatToStringValue(n / 10);
      DigitRoundTrip(n % 10);
      assert s[..|s| - 1] == NatToString(n / 10);
    }
  }

  /** Exactly three digits with leading zeros: the lower groups of a grouped numeral. */
  function Pad3(n: nat): (r: string)
    requires n < 1000
    ensures |r| == 3 && AllDigits(r)
  {
    [DigitChar(n / 100), DigitChar(n / 10 % 10), DigitChar(n % 10)]
  }

  /** The numeral of `n` splits into the numeral of its thousands and a padded group. */
  lemma NatToStringThousands(n: nat)
    requires n >= 1000
    ensures NatToString(n) == NatToString(n / 1000) + Pad3(n % 1000)
  {
    var m := n % 1000;
    ThousandsDigits(n);
    var a, b, c := [DigitChar(m / 100)], [DigitChar(m / 10 % 10)], [DigitChar(m % 10)];
    assert Pad3(m) == a + b + c;
    calc {
      NatToString(n);
      NatToString(n / 10) + c;
      NatToString(n / 10 / 10) + b + c;
      NatToString(n / 1000) + a + b + c;
    }
  }

  lemma ThousandsDigits(n: nat)
    requires n >= 1000
    ensures n / 10 >= 10 && n / 10 / 10 >= 10
    ensures n / 10 / 10 / 10 == n / 1000
    ensures n / 10 / 10 % 10 == n % 1000 / 100
    ensures n / 10 % 10 == n % 1000 / 10 % 10
    ensures n % 10 == n % 1000 % 10
  {
  }

  /**
   * `n` in decimal with `sep` between groups of three digits, counted from the
   * right (the en-US shape of `toLocaleString`, with `sep` the locale's separator).
   */
  function Grouped(n: nat, sep: string): (r: string)
    ensures |r| >= 1 && IsDigit(r[0]) && IsDigit(r[|r| - 1])
    decreases n
  {
    if n < 1000 then NatToString(n) else Grouped(n / 1000, sep) + sep + Pad3(n % 1000)
  }

  /** A grouped numeral with a digit-free separator is the plain numeral once the separators go. */
  lemma {:induction false} GroupedWithoutSeparators(n: nat)
    ensures Grouped(n, "") == NatToString(n)
    decreases n
  {
    if n >= 1000 {
      GroupedWithoutSeparators(n / 1000);
      NatToStringThousands(n);
    }
  }

  /** `Number.prototype.toFixed(1)` on a non-negative value: round half up to tenths. */
  function Fixed1Abs(y: real): (r: string)
    requires y >= 0.0
    ensures |r| >= 3 && r[|r| - 2] == '.' && IsDigit(r[|r| - 1])
  {
    var n := (10.0 * y + 0.5).Floor;
    NatToString(n / 10) + "." + [DigitChar(n % 10)]
  }

  /** `Number.prototype.toFixed(1)`: a minus sign for negative values, then the rounded magnitude. */
  function Fixed1(x: real): (r: string)
    ensures |r| >= 3 && r[|r| - 2] == '.' && IsDigit(r[|r| - 1])
  {
    if x < 0.0 then "-" + Fixed1Abs(-x) else Fixed1Abs(x)
  }

  /** The numeral `w.d` that a one-digit decimal is written as is what toFixed(1) gives back. */
  lemma Fixed1OfTenths(w: nat, d: nat)
    requires d < 10
    ensures Fixed1((w as real) + (d as real) / 10.0) == NatToString(w) + "." + [DigitChar(d)]
  {
    var x := (w as real) + (d as real) / 10.0;
    TenTimesTenths(w, d);
    Fixed1Nearest(x, w, d);
    assert Fixed1(x) == NatToString(w) + "." + [DigitChar(d)];
  }

  lemma TenTimesTenths(w: nat, d: nat)
    ensures 10.0 * ((w as real) + (d as real) / 10.0) == (10 * w + d) as real
  {
  }

  /**
   * toFixed(1) of a non-negative value writes `w.d` for the nearest whole number
   * `10 * w + d` of tenths, the larger one on a tie.
   */
  lemma Fixed1Nearest(y: real, w: nat, d: nat)
    requires y >= 0.0 && d < 10
    requires ((10 * w + d) as real) - 0.5 <= 10.0 * y < ((10 * w + d) as real) + 0.5
    ensures Fixed1(y) == NatToString(w) + "." + [DigitChar(d)]
  {
    var n := (10.0 * y + 0.5).Floor;
    assert n == 10 * w + d;
    TenthsSplit(w, d);
    assert Fixed1(y) == NatToString(n / 10) + "." + [DigitChar(n % 10)];
  }

  /** Every non-negative value has a nearest whole number of tenths, ties going up. */
  lemma NearestTenths(y: real)
    requires y >= 0.0
    ensures (10.0 * y + 0.5).Floor >= 0
    ensures var k := (10.0 * y + 0.5).Floor; (k as real) - 0.5 <= 10.0 * y < (k as real) + 0.5
  {
  }

  lemma TenthsSplit(w: nat, d: nat)
    requires d < 10
    ensures (10 * w + d) / 10 == w && (10 * w + d) % 10 == d
  {
  }
}
