/**
 * Reading a stat counter's text (script.js, lines 38-42): the characters kept
 * by `replace(/[^0-9.]/g, '')`, the percent and decimal flags, and
 * `parseFloat` on the kept characters, where `None` is `NaN`.
 */
module StatText {
  import opened Wrappers
  import opened Numerals

  /** The characters the pattern `[^0-9.]` does not match. */
  predicate IsNumChar(c: char) {
    IsDigit(c) || c == '.'
  }

  predicate AllNumChars(s: string) {
    forall i :: 0 <= i < |s| ==> IsNumChar(s[i])
  }

  /** `text.replace(/[^0-9.]/g, '')`: every character other than a digit or `.` is deleted. */
  function ExtractNumber(text: string): (r: string)
    ensures AllNumChars(r)
    ensures |r| <= |text|
    decreases |text|
  {
    if text == [] then []
    else (if IsNumChar(text[0]) then [text[0]] else []) + ExtractNumber(text[1..])
  }

  /** `text.includes('%')` */
  predicate IsPercentage(text: string) {
    '%' in text
  }

  /** `text.includes('.')` */
  predicate IsDecimal(text: string) {
    '.' in text
  }

  /** Filtering distributes over concatenation: the kept characters stay in their order. */
  lemma {:induction false} ExtractNumberAppend(a: string, b: string)
    ensures ExtractNumber(a + b) == ExtractNumber(a) + ExtractNumber(b)
    decreases |a|
  {
    if a == [] {
      assert a + b == b;
    } else {
      var head := if IsNumChar(a[0]) then [a[0]] else [];
      assert (a + b)[0] == a[0] && (a + b)[1..] == a[1..] + b;
      assert ExtractNumber(a + b) == head + ExtractNumber(a[1..] + b);
      ExtractNumberAppend(a[1..], b);
      assert ExtractNumber(a) == head + ExtractNumber(a[1..]);
    }
  }

  /** Every digit and `.` of the text is kept, as often as it occurs, and nothing else. */
  lemma {:induction false} ExtractNumberCounts(text: string, c: char)
    ensures multiset(ExtractNumber(text))[c] == if IsNumChar(c) then multiset(text)[c] else 0
    decreases |text|
  {
    if text != [] {
      ExtractNumberCounts(text[1..], c);
      assert text == [text[0]] + text[1..];
    }
  }

  /** A text made only of digits and dots is kept whole; hence filtering is idempotent. */
  lemma {:induction false} ExtractNumberKeepsNumeral(text: string)
    requires AllNumChars(text)
    ensures ExtractNumber(text) == text
    decreases |text|
  {
    if text != [] {
      ExtractNumberKeepsNumeral(text[1..]);
    }
  }

  /** The decimal flag is set exactly when the extracted number has a `.`. */
  lemma {:induction false} DecimalFlagMatchesNumber(text: string)
    ensures IsDecimal(text) <==> '.' in ExtractNumber(text)
    decreases |text|
  {
    if text != [] {
      DecimalFlagMatchesNumber(text[1..]);
      assert text == [text[0]] + text[1..];
    }
  }

  /** A grouped numeral whose separator has no digit or `.` reads back as the plain numeral. */
  lemma {:induction false} ExtractNumberOfGrouped(n: nat, sep: string)
    requires ExtractNumber(sep) == ""
    ensures ExtractNumber(Grouped(n, sep)) == NatToString(n)
    decreases n
  {
    if n < 1000 {
      ExtractNumberKeepsNumeral(NatToString(n));
    } else {
      ExtractNumberOfGrouped(n / 1000, sep);
      ExtractNumberAppend(Grouped(n / 1000, sep) + sep, Pad3(n % 1000));
      ExtractNumberAppend(Grouped(n / 1000, sep), sep);
      ExtractNumberKeepsNumeral(Pad3(n % 1000));
      NatToStringThousands(n);
    }
  }

  /** The length of the run of digits that `s` starts with. */
  function DigitRun(s: string): (n: nat)
    ensures n <= |s|
    ensures forall k :: 0 <= k < n ==> IsDigit(s[k])
    ensures n < |s| ==> !IsDigit(s[n])
    decreases |s|
  {
    if s == [] || !IsDigit(s[0]) then 0 else 1 + DigitRun(s[1..])
  }

  function Pow10(k: nat): (r: real)
    ensures r >= 1.0
  {
    if k == 0 then 1.0 else 10.0 * Pow10(k - 1)
  }

  /** Whether a string of digits and dots begins with a decimal literal `parseFloat` accepts. */
  predicate StartsNumeral(s: string) {
    (|s| > 0 && IsDigit(s[0])) || (|s| > 1 && s[0] == '.' && IsDigit(s[1]))
  }

  /**
   * `parseFloat` on the only strings it receives here, those of digits and dots:
   * the longest prefix `digits [. digits]`, with `None` (NaN) when that prefix
   * holds no digit, as for "" or ".".
   */
  function ParseFloat(s: string): (r: Option<real>)
    requires AllNumChars(s)
    ensures r.None? <==> !StartsNumeral(s)
    ensures r.Some? ==> r.value >= 0.0
  {
    var i := DigitRun(s);
    var whole := s[..i];
    var frac := if i < |s| then s[i + 1..][..DigitRun(s[i + 1..])] else "";
    if whole == [] && frac == [] then None
    else Some(DecimalValue(whole, frac))
  }

  /** The value of the numeral `whole.frac`. */
  function DecimalValue(whole: string, frac: string): (v: real)
    requires AllDigits(whole) && AllDigits(frac)
    ensures v >= 0.0
  {
    DigitsValue(whole) as real + DigitsValue(frac) as real / Pow10(|frac|)
  }

  lemma {:induction false} DigitRunOfDigits(s: string)
    requires AllDigits(s)
    ensures DigitRun(s) == |s|
    decreases |s|
  {
    if s != [] {
      DigitRunOfDigits(s[1..]);
    }
  }

  /** A plain decimal numeral parses to its value. */
  lemma ParseNatural(n: nat)
    ensures ParseFloat(NatToString(n)) == Some(n as real)
  {
    ParseDigits(NatToString(n));
    NatToStringValue(n);
  }

  /** A run of digits alone, leading zeros and all, parses to its value; "" is NaN. */
  lemma ParseDigits(w: string)
    requires AllDigits(w)
    ensures AllNumChars(w)
    ensures ParseFloat(w) == if w == [] then None else Some(DigitsValue(w) as real)
  {
    DigitRunOfDigits(w);
    assert w[..|w|] == w;
    assert DecimalValue(w, "") == DigitsValue(w) as real;
  }

  /**
   * `parseFloat` reads the longest prefix `digits . digits` and ignores what
   * follows from the next dot on; the prefix is NaN only when it has no digit.
   */
  lemma ParsePrefix(w: string, f: string, rest: string)
    requires AllDigits(w) && AllDigits(f) && AllNumChars(rest) && (rest == [] || rest[0] == '.')
    ensures AllNumChars(w + "." + f + rest)
    ensures ParseFloat(w + "." + f + rest) == if w == [] && f == [] then None else Some(DecimalValue(w, f))
  {
    NumeralChars(w, f, rest);
    PrefixRuns(w, f, rest);
  }

  lemma NumeralChars(w: string, f: string, rest: string)
    requires AllDigits(w) && AllDigits(f) && AllNumChars(rest)
    ensures AllNumChars(w + "." + f + rest)
  {
    var s := w + "." + f + rest;
    forall k | 0 <= k < |s| ensures IsNumChar(s[k]) {
      if k < |w| {
        assert s[k] == w[k];
      } else if |w| < k < |w| + 1 + |f| {
        assert s[k] == f[k - |w| - 1];
      } else if k >= |w| + 1 + |f| {
        assert s[k] == rest[k - |w| - 1 - |f|];
      }
    }
  }

  /** The two digit runs `parseFloat` reads in `w.f` followed by a rest that starts with a dot. */
  lemma PrefixRuns(w: string, f: string, rest: string)
    requires AllDigits(w) && AllDigits(f) && (rest == [] || rest[0] == '.')
    ensures var s := w + "." + f + rest;
      DigitRun(s) == |w| < |s| && s[..|w|] == w && s[|w| + 1..] == f + rest &&
      DigitRun(f + rest) == |f| && (f + rest)[..|f|] == f
  {
    WholeRun(w, f, rest);
    FractionRun(f, rest);
  }

  lemma WholeRun(w: string, f: string, rest: string)
    requires AllDigits(w)
    ensures var s := w + "." + f + rest;
      DigitRun(s) == |w| < |s| && s[..|w|] == w && s[|w| + 1..] == f + rest
  {
    var tail := "." + f + rest;
    assert w + "." + f + rest == w + tail;
    assert tail[1..] == f + rest;
    RunBeforeDot(w, tail);
  }

  lemma FractionRun(f: string, rest: string)
    requires AllDigits(f) && (rest == [] || rest[0] == '.')
    ensures DigitRun(f + rest) == |f| && (f + rest)[..|f|] == f
  {
    if rest == [] {
      assert f + rest == f;
      DigitRunOfDigits(f);
      assert f[..|f|] == f;
    } else {
      RunBeforeDot(f, rest);
    }
  }

  /** Digits followed by a dot: the run is the digits, and the dot comes right after. */
  lemma RunBeforeDot(a: string, b: string)
    requires AllDigits(a) && b != [] && b[0] == '.'
    ensures DigitRun(a + b) == |a| && (a + b)[..|a|] == a && (a + b)[|a| + 1..] == b[1..]
  {
    DigitRunPrefix(a, b);
  }

  /**
   * Every digit-and-dot string is one of the two shapes above: digits only, or
   * the digit run, a dot, the next digit run, and a rest that is empty or starts
   * with a dot.
   */
  lemma NumeralShape(s: string)
    requires AllNumChars(s)
    ensures DigitRun(s) == |s| ==> AllDigits(s)
    ensures DigitRun(s) < |s| ==>
      var i := DigitRun(s);
      var t := s[i + 1..];
      var j := DigitRun(t);
      s[i] == '.' && s == s[..i] + "." + t[..j] + t[j..] &&
      AllDigits(s[..i]) && AllDigits(t[..j]) && AllNumChars(t[j..]) &&
      (t[j..] == [] || t[j..][0] == '.')
  {
    var i := DigitRun(s);
    RunDigits(s);
    if i == |s| {
      assert s[..i] == s;
    } else {
      ShapeAt(s, i, DigitRun(s[i + 1..]));
    }
  }

  /** The decomposition above, at the run ends `i` and `j`. */
  lemma ShapeAt(s: string, i: nat, j: nat)
    requires AllNumChars(s) && i == DigitRun(s) < |s| && j == DigitRun(s[i + 1..])
    ensures var t := s[i + 1..];
      s[i] == '.' && s == s[..i] + "." + t[..j] + t[j..] &&
      AllDigits(s[..i]) && AllDigits(t[..j]) && AllNumChars(t[j..]) &&
      (t[j..] == [] || t[j..][0] == '.')
  {
    var t := s[i + 1..];
    assert s[i] == '.';
    Decompose(s, i, j);
    RunDigits(s);
    RunDigits(t);
    SuffixNumChars(s, i + 1);
    SuffixNumChars(t, j);
  }

  /** The leading run of a string is all digits. */
  lemma RunDigits(s: string)
    ensures AllDigits(s[..DigitRun(s)])
  {
    var i := DigitRun(s);
    forall k | 0 <= k < i ensures IsDigit(s[..i][k]) {
      assert s[..i][k] == s[k];
    }
  }

  /** Any suffix of a digit-and-dot string is one too. */
  lemma SuffixNumChars(s: string, j: nat)
    requires AllNumChars(s) && j <= |s|
    ensures AllNumChars(s[j..])
  {
    forall k | 0 <= k < |s| - j ensures IsNumChar(s[j..][k]) {
      assert s[j..][k] == s[j + k];
    }
  }

  lemma Decompose(s: string, i: nat, j: nat)
    requires i < |s| && s[i] == '.' && j <= |s| - i - 1
    ensures s == s[..i] + "." + s[i + 1..][..j] + s[i + 1..][j..]
  {
    assert s[i + 1..] == s[i + 1..][..j] + s[i + 1..][j..];
    assert s == s[..i] + [s[i]] + s[i + 1..];
    assert [s[i]] == ".";
  }

  /** The numeral `w.d` parses to `w + d/10`. */
  lemma ParseTenths(w: nat, d: nat)
    requires d < 10
    ensures var s := NatToString(w) + "." + [DigitChar(d)];
      AllNumChars(s) && ParseFloat(s) == Some((w as real) + (d as real) / 10.0)
  {
    assert AllDigits([DigitChar(d)]);
    ParsePrefix(NatToString(w), [DigitChar(d)], "");
    assert NatToString(w) + "." + [DigitChar(d)] + "" == NatToString(w) + "." + [DigitChar(d)];
    TenthsValue(w, d);
  }

  lemma TenthsValue(w: nat, d: nat)
    requires d < 10
    ensures DecimalValue(NatToString(w), [DigitChar(d)]) == (w as real) + (d as real) / 10.0
  {
    OneDigit(d);
    NatToStringValue(w);
    assert Pow10(1) == 10.0;
  }

  /** A second dot ends the number: "1.2.3" reads as 1.2. */
  lemma ParseSecondDotExample()
    ensures ParseFloat("1.2.3") == Some(1.2)
  {
    ParsePrefix("1", "2", ".3");
    assert "1" + "." + "2" + ".3" == "1.2.3";
    TenthsValue(1, 2);
    assert NatToString(1) == "1" && [DigitChar(2)] == "2";
  }

  /** A leading dot starts the fraction: ".1.2", what "Ver. 1.2" filters to, reads as 0.1. */
  lemma ParseLeadingDotExample()
    ensures ParseFloat(".1.2") == Some(0.1)
  {
    OneDigit(1);
    ParsePrefix("", "1", ".2");
    assert "" + "." + "1" + ".2" == ".1.2";
    assert DecimalValue("", "1") == 0.1 by {
      assert Pow10(1) == 10.0;
    }
  }

  /** A trailing dot adds nothing: "5." reads as 5. */
  lemma ParseTrailingDotExample()
    ensures ParseFloat("5.") == Some(5.0)
  {
    OneDigit(5);
    ParsePrefix("5", "", "");
    assert "5" + "." + "" + "" == "5.";
  }

  /** Leading zeros are read as zeros: "007" reads as 7. */
  lemma ParseLeadingZerosExample()
    ensures ParseFloat("007") == Some(7.0)
  {
    ParseDigits("007");
    assert DigitsValue("007") == 7 by {
      assert "007"[..2] == "00" && "00"[..1] == "0" && "0"[..0] == "";
    }
  }

  lemma OneDigit(d: nat)
    requires d < 10
    ensures DigitRun([DigitChar(d)]) == 1
    ensures [DigitChar(d)][..1] == [DigitChar(d)]
    ensures DigitsValue([DigitChar(d)]) == d
  {
    DigitRunOfDigits([DigitChar(d)]);
    DigitRoundTrip(d);
    assert [DigitChar(d)][..0] == [];
  }

  lemma {:induction false} DigitRunPrefix(a: string, b: string)
    requires AllDigits(a) && b != [] && !IsDigit(b[0])
    ensures DigitRun(a + b) == |a|
    decreases |a|
  {
    if a == [] {
      assert a + b == b;
    } else {
      assert (a + b)[0] == a[0] && (a + b)[1..] == a[1..] + b;
      assert AllDigits(a[1..]) by {
        forall k | 0 <= k < |a| - 1 ensures IsDigit(a[1..][k]) {
          assert a[1..][k] == a[k + 1];
        }
      }
      DigitRunPrefix(a[1..], b);
    }
  }
}
