/**
 * The stat counter (script.js, lines 34-81): the animation a stat's text sets up,
 * the clamped progress, the quartic ease-out, the interpolated value, the text
 * each frame shows, and the chain of animation frames, which stops after the
 * frame whose progress reaches 1. Arithmetic is exact (`real`), not IEEE.
 */
module Counter {
  import opened Wrappers
  import opened Numerals
  import opened StatText

  /** The duration every stat counter is animated over, in milliseconds (line 42). */
  const StatDuration: real := 2000.0

  datatype Format = Format(isPercentage: bool, isDecimal: bool)

  /** The arguments of `animateValue`; `end` is `None` when `parseFloat` gave NaN. */
  datatype CounterSpec = CounterSpec(start: real, end: Option<real>, duration: real, format: Format)

  /** The animation the stat observer starts for a stat whose text is `text` (lines 38-42). */
  function CounterFor(text: string): (c: CounterSpec)
    ensures c.start == 0.0 && c.duration == StatDuration
    ensures c.format.isPercentage <==> '%' in text
    ensures c.format.isDecimal <==> '.' in ExtractNumber(text)
    ensures c.end.None? <==> !StartsNumeral(ExtractNumber(text))
  {
    DecimalFlagMatchesNumber(text);
    CounterSpec(0.0, ParseFloat(ExtractNumber(text)), StatDuration,
                Format(IsPercentage(text), IsDecimal(text)))
  }

  /** `Math.min(elapsed / duration, 1)` (line 57). */
  function Progress(elapsed: real, duration: real): (p: real)
    requires duration > 0.0
    ensures p <= 1.0
    ensures elapsed >= 0.0 ==> 0.0 <= p
    ensures p == 1.0 <==> elapsed >= duration
  {
    if elapsed / duration < 1.0 then elapsed / duration else 1.0
  }

  lemma ProgressMonotone(e1: real, e2: real, duration: real)
    requires duration > 0.0 && e1 <= e2
    ensures Progress(e1, duration) <= Progress(e2, duration)
  {
    DivideMonotone(e1, e2, duration);
  }

  lemma DivideMonotone(a: real, b: real, d: real)
    requires d > 0.0 && a <= b
    ensures a / d <= b / d
  {
    assert b / d - a / d == (b - a) / d;
  }

  lemma ProductNonNegative(a: real, b: real)
    requires 0.0 <= a && 0.0 <= b
    ensures 0.0 <= a * b
  {
  }

  /** A factor in [0, 1] scales a value towards 0 without changing its sign. */
  lemma ScaleBetween(a: real, e: real)
    requires 0.0 <= e <= 1.0
    ensures a >= 0.0 ==> 0.0 <= a * e <= a
    ensures a <= 0.0 ==> a <= a * e <= 0.0
  {
    if a >= 0.0 {
      ProductNonNegative(a, e);
      ProductNonNegative(a, 1.0 - e);
    } else {
      ProductNonNegative(-a, e);
      ProductNonNegative(-a, 1.0 - e);
    }
    assert a * (1.0 - e) == a - a * e;
    assert (-a) * e == -(a * e);
    assert (-a) * (1.0 - e) == -(a - a * e);
  }

  lemma ScaleMonotone(d: real, a1: real, a2: real)
    requires d >= 0.0 && a1 <= a2
    ensures d * a1 <= d * a2
  {
    ProductNonNegative(d, a2 - a1);
    assert d * (a2 - a1) == d * a2 - d * a1;
  }

  function Square(x: real): (r: real)
    ensures r >= 0.0
  {
    x * x
  }

  /** `Math.pow(q, 4)` */
  function Pow4(q: real): (r: real)
    ensures r >= 0.0
  {
    Square(Square(q))
  }

  lemma SquareMonotone(a: real, b: real)
    requires 0.0 <= b <= a
    ensures 0.0 <= Square(b) <= Square(a)
  {
    ProductNonNegative(b, b);
    ScaleMonotone(b, b, a);
    ScaleMonotone(a, b, a);
    assert b * a == a * b;
  }

  /** q^4 stays in [0, 1] and grows with q there. */
  lemma Pow4Monotone(q1: real, q2: real)
    requires 0.0 <= q2 <= q1 <= 1.0
    ensures 0.0 <= Pow4(q2) <= Pow4(q1) <= 1.0
  {
    SquareMonotone(q1, q2);
    SquareMonotone(1.0, q1);
    assert Square(1.0) == 1.0;
    SquareMonotone(Square(q1), Square(q2));
    SquareMonotone(1.0, Square(q1));
  }

  /** The quartic ease-out `1 - (1 - p)^4` (line 59). */
  function Ease(p: real): (e: real)
    ensures p == 0.0 ==> e == 0.0
    ensures p == 1.0 ==> e == 1.0
    ensures 0.0 <= p <= 1.0 ==> 0.0 <= e <= 1.0
  {
    var q := 1.0 - p;
    if 0.0 <= q <= 1.0 then
      Pow4Monotone(q, q);
      assert Square(1.0) == 1.0 && Square(0.0) == 0.0;
      1.0 - Pow4(q)
    else
      1.0 - Pow4(q)
  }

  /** The ease-out never moves backwards on [0, 1]. */
  lemma EaseMonotone(p1: real, p2: real)
    requires 0.0 <= p1 <= p2 <= 1.0
    ensures Ease(p1) <= Ease(p2)
  {
    Pow4Monotone(1.0 - p1, 1.0 - p2);
  }

  /** `start + (end - start) * easeOutQuart` (line 60), for the eased progress `e`. */
  function Interpolate(start: real, end: real, e: real): (v: real)
    ensures e == 0.0 ==> v == start
    ensures e == 1.0 ==> v == end
  {
    start + (end - start) * e
  }

  /** Between the two ends of the easing, the value stays between `start` and `end`. */
  lemma InterpolateBetween(start: real, end: real, e: real)
    requires start <= end && 0.0 <= e <= 1.0
    ensures start <= Interpolate(start, end, e) <= end
  {
    var d := end - start;
    ScaleBetween(d, e);
    ScaleMonotone(d, e, 1.0);
    assert d * 1.0 == d;
    assert Interpolate(start, end, e) == start + d * e;
    assert start + d * e <= start + d;
  }

  /** The counter's value `elapsed` milliseconds after it started; NaN stays NaN. */
  function Current(c: CounterSpec, elapsed: real): (v: Option<real>)
    requires c.duration > 0.0
    ensures v.None? <==> c.end.None?
    ensures elapsed >= c.duration ==> v == c.end
    ensures elapsed == 0.0 && c.end.Some? ==> v == Some(c.start)
  {
    match c.end
    case None => None
    case Some(e) => Some(Interpolate(c.start, e, Ease(Progress(elapsed, c.duration))))
  }

  /** Once started, a counter with `start <= end` only counts up as time passes. */
  lemma CountsUp(c: CounterSpec, e1: real, e2: real)
    requires c.duration > 0.0 && c.end.Some? && c.start <= c.end.value
    requires 0.0 <= e1 <= e2
    ensures Current(c, e1).value <= Current(c, e2).value
    ensures c.start <= Current(c, e1).value <= c.end.value
  {
    var p1, p2 := Progress(e1, c.duration), Progress(e2, c.duration);
    ProgressMonotone(e1, e2, c.duration);
    EaseMonotone(p1, p2);
    InterpolateMonotone(c.start, c.end.value, Ease(p1), Ease(p2));
    InterpolateBetween(c.start, c.end.value, Ease(p1));
  }

  /** The interpolation moves from `start` towards `end` as the eased progress grows. */
  lemma InterpolateMonotone(start: real, end: real, e1: real, e2: real)
    requires start <= end && e1 <= e2
    ensures Interpolate(start, end, e1) <= Interpolate(start, end, e2)
  {
    var d := end - start;
    ScaleMonotone(d, e1, e2);
    assert Interpolate(start, end, e1) == start + d * e1;
    assert Interpolate(start, end, e2) == start + d * e2;
  }

  /** `Math.floor(x).toLocaleString()` for the integer `k`, with `sep` grouping thousands. */
  function IntegerText(k: int, sep: string): (r: string)
    ensures |r| >= 1 && IsDigit(r[|r| - 1])
  {
    if k < 0 then "-" + Grouped(-k, sep) else Grouped(k, sep)
  }

  /** The display before the percent sign (lines 63-67): NaN prints as "NaN". */
  function Body(v: Option<real>, isDecimal: bool, sep: string): (b: string)
    ensures |b| >= 1 && b[|b| - 1] != '%'
    ensures v.None? ==> b == "NaN"
    ensures v.Some? && isDecimal ==> |b| >= 3 && b[|b| - 2] == '.' && IsDigit(b[|b| - 1])
    ensures v.Some? && !isDecimal ==> IsDigit(b[|b| - 1])
  {
    match v
    case None => "NaN"
    case Some(x) => if isDecimal then Fixed1(x) else IntegerText(x.Floor, sep)
  }

  /**
   * The integer display is `Math.floor` of the value: read back, its digits give
   * the whole number `m` with `m <= x < m + 1`, and a minus sign leads exactly
   * when the value is negative.
   */
  lemma IntegerBodyValue(x: real, sep: string)
    requires ExtractNumber(sep) == ""
    ensures var b := Body(Some(x), false, sep);
      var m := ParseFloat(ExtractNumber(b));
      m.Some? && m.value.Floor as real == m.value &&
      (x >= 0.0 ==> b[0] != '-' && m.value <= x < m.value + 1.0) &&
      (x < 0.0 ==> b[0] == '-' && -m.value <= x < -m.value + 1.0)
  {
    var k := x.Floor;
    var b := Body(Some(x), false, sep);
    if k >= 0 {
      assert b == Grouped(k, sep);
      GroupedReadsBack(k, sep);
    } else {
      var n: nat := -k;
      assert b == "-" + Grouped(n, sep);
      MinusDropped(Grouped(n, sep));
      GroupedReadsBack(n, sep);
    }
  }

  /** The digits of a grouped numeral parse back to its value. */
  lemma GroupedReadsBack(n: nat, sep: string)
    requires ExtractNumber(sep) == ""
    ensures ParseFloat(ExtractNumber(Grouped(n, sep))) == Some(n as real)
  {
    ExtractNumberOfGrouped(n, sep);
    ParseNatural(n);
  }

  /** The filter drops a leading minus sign. */
  lemma MinusDropped(g: string)
    ensures ExtractNumber("-" + g) == ExtractNumber(g)
  {
    ExtractNumberAppend("-", g);
    assert ExtractNumber("-") == "";
    assert "" + ExtractNumber(g) == ExtractNumber(g);
  }

  /**
   * The one-decimal display of a non-negative value is `toFixed(1)`: it reads
   * back as a whole number `v` of tenths with `v - 0.05 <= x < v + 0.05`, the
   * nearest one, the larger on a tie.
   */
  lemma DecimalBodyValue(x: real, sep: string)
    requires x >= 0.0
    ensures var b := Body(Some(x), true, sep);
      AllNumChars(b) && ParseFloat(b).Some? &&
      var v := ParseFloat(b).value;
      v - 0.05 <= x < v + 0.05 && (10.0 * v).Floor as real == 10.0 * v
  {
    NearestTenths(x);
    var k: nat := (10.0 * x + 0.5).Floor;
    var w, d := k / 10, k % 10;
    assert 10 * w + d == k;
    Fixed1Nearest(x, w, d);
    assert Body(Some(x), true, sep) == NatToString(w) + "." + [DigitChar(d)];
    ParseTenths(w, d);
    TenthsBounds(x, w, d);
  }

  /** The whole number `10 * w + d` of tenths nearest to `10 * x` puts `w.d` within 0.05 of `x`. */
  lemma TenthsBounds(x: real, w: nat, d: nat)
    requires ((10 * w + d) as real) - 0.5 <= 10.0 * x < ((10 * w + d) as real) + 0.5
    ensures var v := (w as real) + (d as real) / 10.0;
      v - 0.05 <= x < v + 0.05 && (10.0 * v).Floor as real == 10.0 * v
  {
    var v := (w as real) + (d as real) / 10.0;
    assert 10.0 * v == (10 * w + d) as real;
  }

  /** A negative value is shown with one decimal as a minus sign before its magnitude's display. */
  lemma DecimalBodyNegative(x: real, sep: string)
    requires x < 0.0
    ensures Body(Some(x), true, sep) == "-" + Body(Some(-x), true, sep)
  {
  }

  /** The text a frame writes into the stat (lines 62-73). */
  function Render(v: Option<real>, f: Format, sep: string): (r: string)
    ensures |r| >= 1
    ensures f.isPercentage <==> r[|r| - 1] == '%'
    ensures r[..|r| - (if f.isPercentage then 1 else 0)] == Body(v, f.isDecimal, sep)
  {
    var b := Body(v, f.isDecimal, sep);
    if f.isPercentage then
      assert (b + "%")[..|b|] == b;
      b + "%"
    else
      b
  }

  /** The text shown by the frame at `elapsed` milliseconds. */
  function FrameText(c: CounterSpec, sep: string, elapsed: real): (r: string)
    requires c.duration > 0.0
    ensures |r| >= 1 && (c.format.isPercentage <==> r[|r| - 1] == '%')
    ensures elapsed >= c.duration ==> r == Render(c.end, c.format, sep)
  {
    Render(Current(c, elapsed), c.format, sep)
  }

  /** The texts written by frames run at the given elapsed times, in order. */
  function Texts(c: CounterSpec, sep: string, frames: seq<real>): (r: seq<string>)
    requires c.duration > 0.0
    ensures |r| == |frames|
  {
    seq(|frames|, k requires 0 <= k < |frames| => FrameText(c, sep, frames[k]))
  }

  /**
   * `animateValue` (lines 52-81) with the host's animation frames given as the
   * timestamps `ticks` at which `updateValue` would be called. The first frame
   * is always requested; a frame requests the next one only while its progress
   * is below 1, that is while less than the duration has elapsed. Returns the
   * elapsed time of each frame that ran and the texts those frames wrote.
   */
  method Animate(c: CounterSpec, sep: string, startTime: real, ticks: seq<real>)
    returns (frames: seq<real>, shown: seq<string>)
    requires c.duration > 0.0
    ensures |frames| <= |ticks|
    ensures |ticks| > 0 ==> |frames| > 0
    ensures forall k :: 0 <= k < |frames| ==> frames[k] == ticks[k] - startTime
    ensures forall k :: 0 <= k < |frames| - 1 ==> frames[k] < c.duration
    ensures 0 < |frames| < |ticks| ==> frames[|frames| - 1] >= c.duration
    ensures shown == Texts(c, sep, frames)
  {
    frames := [];
    var requested := true;
    var i := 0;
    while requested && i < |ticks|
      invariant 0 <= i <= |ticks| && |frames| == i
      invariant forall k :: 0 <= k < i ==> frames[k] == ticks[k] - startTime
      invariant forall k :: 0 <= k < i - 1 ==> frames[k] < c.duration
      invariant requested <==> i == 0 || frames[i - 1] < c.duration
    {
      var elapsed := ticks[i] - startTime;
      var progress := Progress(elapsed, c.duration);
      frames := frames + [elapsed];
      requested := progress < 1.0;
      i := i + 1;
    }
    shown := Texts(c, sep, frames);
  }

  /**
   * An animation that stops before the frames run out ends on its end value:
   * the last frame, whose progress reached 1, shows `end` in the stat's format.
   */
  lemma LastFrameShowsEnd(c: CounterSpec, sep: string, frames: seq<real>)
    requires c.duration > 0.0 && |frames| > 0 && frames[|frames| - 1] >= c.duration
    ensures Texts(c, sep, frames)[|frames| - 1] == Render(c.end, c.format, sep)
  {
    var last := frames[|frames| - 1];
    assert Progress(last, c.duration) == 1.0;
    assert Current(c, last) == c.end;
  }

  /** The stat texts the markup uses: `<int>`, `<int>.<digit>`, either one followed by `%`. */
  datatype StatLiteral = StatLiteral(whole: nat, tenth: Option<nat>, percent: bool)

  predicate ValidLiteral(l: StatLiteral) {
    l.tenth.Some? ==> l.tenth.value < 10
  }

  function LiteralText(l: StatLiteral): (r: string)
    requires ValidLiteral(l)
  {
    NatToString(l.whole)
      + (if l.tenth.Some? then "." + [DigitChar(l.tenth.value)] else "")
      + (if l.percent then "%" else "")
  }

  function LiteralValue(l: StatLiteral): (v: real)
    requires ValidLiteral(l)
  {
    (l.whole as real) + (if l.tenth.Some? then (l.tenth.value as real) / 10.0 else 0.0)
  }

  /** The digits and dot of a literal: what the stat's text keeps once filtered. */
  function LiteralNumber(l: StatLiteral): (r: string)
    requires ValidLiteral(l)
    ensures AllNumChars(r)
  {
    NatToString(l.whole) + (if l.tenth.Some? then "." + [DigitChar(l.tenth.value)] else "")
  }

  function PercentSuffix(percent: bool): (r: string) {
    if percent then "%" else ""
  }

  /** Filtering a literal's text leaves its number; the percent flag is its suffix. */
  lemma LiteralFilter(l: StatLiteral)
    requires ValidLiteral(l)
    ensures LiteralText(l) == LiteralNumber(l) + PercentSuffix(l.percent)
    ensures ExtractNumber(LiteralText(l)) == LiteralNumber(l)
    ensures '%' in LiteralText(l) <==> l.percent
  {
    var number, suffix := LiteralNumber(l), PercentSuffix(l.percent);
    assert LiteralText(l) == number + suffix;
    ExtractNumberAppend(number, suffix);
    assert ExtractNumber(suffix) == "";
    ExtractNumberKeepsNumeral(number);
    assert '%' !in number;
  }

  /**
   * A stat written as a literal counts up to exactly its value in its own format,
   * and its final display, read again, gives the same animation back.
   */
  lemma CounterEndsOnLiteral(l: StatLiteral, sep: string)
    requires ValidLiteral(l) && ExtractNumber(sep) == "" && '%' !in sep
    ensures CounterFor(LiteralText(l)).end == Some(LiteralValue(l))
    ensures CounterFor(LiteralText(l)).format == Format(l.percent, l.tenth.Some?)
    ensures var c := CounterFor(LiteralText(l));
      var final := Render(c.end, c.format, sep);
      (l.tenth.Some? ==> final == LiteralText(l)) &&
      (l.tenth.None? ==> final == Grouped(l.whole, sep) + PercentSuffix(l.percent)) &&
      CounterFor(final) == c
  {
    if l.tenth.Some? {
      TenthsLiteral(l);
      TenthsRereads(l, sep);
    } else {
      WholeLiteral(l, sep);
      var c := CounterFor(LiteralText(l));
      var final := Render(c.end, c.format, sep);
      assert CounterFor(final).end == c.end;
      assert CounterFor(final).format == c.format;
    }
  }

  lemma TenthsLiteral(l: StatLiteral)
    requires ValidLiteral(l) && l.tenth.Some?
    ensures CounterFor(LiteralText(l)).end == Some(LiteralValue(l))
    ensures CounterFor(LiteralText(l)).format == Format(l.percent, true)
  {
    LiteralFilter(l);
    TenthsNumber(l);
  }

  /** A one-decimal literal's number has a dot and parses to the literal's value. */
  lemma TenthsNumber(l: StatLiteral)
    requires ValidLiteral(l) && l.tenth.Some?
    ensures '.' in LiteralNumber(l)
    ensures ParseFloat(LiteralNumber(l)) == Some(LiteralValue(l))
  {
    var whole := NatToString(l.whole);
    var s := whole + "." + [DigitChar(l.tenth.value)];
    assert LiteralNumber(l) == s;
    assert s[|whole|] == '.';
    ParseTenths(l.whole, l.tenth.value);
  }

  lemma WholeLiteral(l: StatLiteral, sep: string)
    requires ValidLiteral(l) && l.tenth.None? && ExtractNumber(sep) == "" && '%' !in sep
    ensures CounterFor(LiteralText(l)).end == Some(LiteralValue(l))
    ensures CounterFor(LiteralText(l)).format == Format(l.percent, false)
    ensures var final := Render(Some(LiteralValue(l)), Format(l.percent, false), sep);
      final == Grouped(l.whole, sep) + PercentSuffix(l.percent) &&
      ExtractNumber(final) == ExtractNumber(LiteralText(l)) &&
      ('%' in final <==> l.percent)
  {
    WholeCounter(l);
    assert LiteralValue(l) == l.whole as real;
    GroupedRereads(l.whole, l.percent, sep);
    LiteralFilter(l);
  }

  /** The counter started on a whole-number literal ends on its value, with no decimal. */
  lemma WholeCounter(l: StatLiteral)
    requires ValidLiteral(l) && l.tenth.None?
    ensures CounterFor(LiteralText(l)).end == Some(l.whole as real)
    ensures CounterFor(LiteralText(l)).format == Format(l.percent, false)
  {
    var text, n := LiteralText(l), NatToString(l.whole);
    LiteralFilter(l);
    assert ExtractNumber(text) == n;
    ParseNatural(l.whole);
    assert '.' !in n by {
      forall k | 0 <= k < |n| ensures n[k] != '.' {
        assert IsDigit(n[k]);
      }
    }
  }

  /** A one-decimal stat's final display is its own text. */
  lemma TenthsRereads(l: StatLiteral, sep: string)
    requires ValidLiteral(l) && l.tenth.Some?
    ensures Render(Some(LiteralValue(l)), Format(l.percent, true), sep) == LiteralText(l)
  {
    var b := NatToString(l.whole) + "." + [DigitChar(l.tenth.value)];
    Fixed1OfTenths(l.whole, l.tenth.value);
    assert Body(Some(LiteralValue(l)), true, sep) == b;
    assert LiteralText(l) == b + PercentSuffix(l.percent);
  }

  /** A whole-number stat's final display is its grouped numeral, which reads back the same. */
  lemma GroupedRereads(n: nat, percent: bool, sep: string)
    requires ExtractNumber(sep) == "" && '%' !in sep
    ensures Render(Some(n as real), Format(percent, false), sep) == Grouped(n, sep) + PercentSuffix(percent)
    ensures ExtractNumber(Grouped(n, sep) + PercentSuffix(percent)) == NatToString(n)
    ensures '%' in Grouped(n, sep) + PercentSuffix(percent) <==> percent
  {
    GroupedRenders(n, percent, sep);
    GroupedFilters(n, percent, sep);
  }

  lemma GroupedRenders(n: nat, percent: bool, sep: string)
    ensures Render(Some(n as real), Format(percent, false), sep) == Grouped(n, sep) + PercentSuffix(percent)
  {
    assert (n as real).Floor == n;
    assert Body(Some(n as real), false, sep) == Grouped(n, sep);
  }

  lemma GroupedFilters(n: nat, percent: bool, sep: string)
    requires ExtractNumber(sep) == "" && '%' !in sep
    ensures ExtractNumber(Grouped(n, sep) + PercentSuffix(percent)) == NatToString(n)
    ensures '%' in Grouped(n, sep) + PercentSuffix(percent) <==> percent
  {
    var g, suffix := Grouped(n, sep), PercentSuffix(percent);
    ExtractNumberAppend(g, suffix);
    ExtractNumberOfGrouped(n, sep);
    assert ExtractNumber(suffix) == "";
    GroupedChars(n, sep);
    assert '%' !in g;
  }

  /** Every character of a grouped numeral is a digit or comes from the separator. */
  lemma {:induction false} GroupedChars(n: nat, sep: string)
    ensures forall i :: 0 <= i < |Grouped(n, sep)| ==> IsDigit(Grouped(n, sep)[i]) || Grouped(n, sep)[i] in sep
    decreases n
  {
    if n >= 1000 {
      GroupedChars(n / 1000, sep);
      var a, p := Grouped(n / 1000, sep), Pad3(n % 1000);
      assert Grouped(n, sep) == a + sep + p;
      forall i | 0 <= i < |a + sep + p|
        ensures IsDigit((a + sep + p)[i]) || (a + sep + p)[i] in sep
      {
        if i < |a| {
          assert (a + sep + p)[i] == a[i];
        } else if i < |a| + |sep| {
          assert (a + sep + p)[i] == sep[i - |a|];
        } else {
          assert (a + sep + p)[i] == p[i - |a| - |sep|];
        }
      }
    }
  }

  lemma OneThousandTwoHundredThirtyFour()
    ensures NatToString(1234) == "1234"
    ensures Grouped(1234, ",") == "1,234"
  {
    assert NatToString(1) == "1" && NatToString(12) == "12" && NatToString(123) == "123";
    assert Pad3(234) == "234";
  }

  lemma FilterGroupedExample()
    ensures ExtractNumber("1,234") == "1234"
  {
    OneThousandTwoHundredThirtyFour();
    assert ExtractNumber(",") == "";
    ExtractNumberOfGrouped(1234, ",");
  }

  /** A grouped whole-number stat counts up to its value and ends on its own text. */
  lemma GroupedStatExample()
    ensures ExtractNumber("1,234") == "1234"
    ensures CounterFor("1,234") == CounterSpec(0.0, Some(1234.0), StatDuration, Format(false, false))
    ensures Render(Some(1234.0), Format(false, false), ",") == "1,234"
  {
    var l := StatLiteral(1234, None, false);
    OneThousandTwoHundredThirtyFour();
    FilterGroupedExample();
    assert ExtractNumber(",") == "";
    CounterEndsOnLiteral(l, ",");
    LiteralFilter(l);
  }

  /** A one-decimal percentage counts up to its value and ends on its own text. */
  lemma DecimalStatExample()
    ensures CounterFor("98.5%") == CounterSpec(0.0, Some(98.5), StatDuration, Format(true, true))
    ensures Render(Some(98.5), Format(true, true), ",") == "98.5%"
  {
    var l := StatLiteral(98, Some(5), true);
    assert LiteralText(l) == "98.5%" by {
      assert NatToString(98) == "98";
    }
    assert ExtractNumber(",") == "";
    CounterEndsOnLiteral(l, ",");
  }

  /** A stat text with no number in it (here "N/A") animates to NaN and shows "NaN". */
  lemma NotANumberExample()
    ensures CounterFor("N/A").end == None
    ensures Render(CounterFor("N/A").end, CounterFor("N/A").format, ",") == "NaN"
  {
    assert ExtractNumber("A") == "";
    assert "/A"[1..] == "A" && "N/A"[1..] == "/A";
    assert ExtractNumber("N/A") == "";
    assert !StartsNumeral("");
  }
}
