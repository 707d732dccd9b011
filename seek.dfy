/**
 * The `t` parameter of the video page's URL (daiseihai/assets/javascript/video.js):
 * `setURL` writes the playback position with `formatSeconds`, and
 * `seekToInitial` reads it back by splitting at ':' and folding the parts in
 * base 60. Positions are whole milliseconds.
 */
module SeekLabels {
  import opened Wrappers
  import opened Numerals

  const HourMs := 3_600_000
  const MinuteMs := 60_000
  const SecondMs := 1_000

  /** A position broken down as `formatSeconds` does it, subtracting each unit in turn. */
  datatype Clock = Clock(hours: nat, minutes: nat, seconds: nat, millis: nat)

  function ClockOf(ms: nat): (c: Clock)
    ensures c.hours * HourMs + c.minutes * MinuteMs + c.seconds * SecondMs + c.millis == ms
    ensures c.minutes < 60 && c.seconds < 60 && c.millis < 1000
  {
    var hours := ms / HourMs;
    var afterHours := ms - hours * HourMs;
    var minutes := afterHours / MinuteMs;
    var afterMinutes := afterHours - minutes * MinuteMs;
    var seconds := afterMinutes / SecondMs;
    Clock(hours, minutes, seconds, afterMinutes - seconds * SecondMs)
  }

  /** `Array.prototype.join(sep)`. */
  function Join(parts: seq<string>, sep: char): string {
    if |parts| == 0 then ""
    else if |parts| == 1 then parts[0]
    else parts[0] + [sep] + Join(parts[1..], sep)
  }

  /** `String.prototype.split(sep)` for a one-character separator. */
  function Split(s: string, sep: char): (r: seq<string>)
    ensures |r| >= 1
  {
    if |s| == 0 then [""]
    else
      var rest := Split(s[1..], sep);
      if s[0] == sep then [""] + rest else [[s[0]] + rest[0]] + rest[1..]
  }

  function Decimal(n: nat): string {
    Numeral(n, 10)
  }

  /** The label `formatSeconds` writes: minutes only when non-zero, milliseconds unpadded. */
  function WrittenLabel(ms: nat): string {
    var c := ClockOf(ms);
    var components :=
      (if c.hours > 0 then [Decimal(c.hours)] else [])
      + (if c.minutes > 0 then [PadLeft(Decimal(c.minutes), 2)] else [])
      + [PadLeft(Decimal(c.seconds), 2)];
    Join(components, ':') + "." + Decimal(c.millis)
  }

  /** `formatSeconds` as written, subtracting each unit from the time and pushing its component. */
  method FormatSecondsAsWritten(ms: nat) returns (text: string)
    ensures text == WrittenLabel(ms)
  {
    var components: seq<string> := [];
    var time := ms;
    var hours := time / HourMs;
    time := time - hours * HourMs;
    if hours > 0 {
      components := components + [Decimal(hours)];
    }
    var minutes := time / MinuteMs;
    time := time - minutes * MinuteMs;
    if minutes > 0 {
      components := components + [PadLeft(Decimal(minutes), 2)];
    }
    var seconds := time / SecondMs;
    time := time - seconds * SecondMs;
    components := components + [PadLeft(Decimal(seconds), 2)];
    assert ClockOf(ms) == Clock(hours, minutes, seconds, time);
    assert components ==
      (if hours > 0 then [Decimal(hours)] else [])
      + (if minutes > 0 then [PadLeft(Decimal(minutes), 2)] else [])
      + [PadLeft(Decimal(seconds), 2)];
    text := Join(components, ':') + "." + Decimal(time);
  }

  /** The label `formatSeconds` evidently intends: minutes whenever hours are shown, milliseconds to three places. */
  function FormatSeconds(ms: nat): string {
    ClockLabel(ClockOf(ms))
  }

  /** The corrected label of a broken-down position. */
  function ClockLabel(c: Clock): string {
    var components :=
      (if c.hours > 0 then [Decimal(c.hours)] else [])
      + (if c.hours > 0 || c.minutes > 0 then [PadLeft(Decimal(c.minutes), 2)] else [])
      + [PadLeft(Decimal(c.seconds), 2)];
    Join(components, ':') + "." + PadLeft(Decimal(c.millis), 3)
  }

  /** The position a clock stands for, in milliseconds. */
  function Total(c: Clock): nat {
    c.hours * HourMs + c.minutes * MinuteMs + c.seconds * SecondMs + c.millis
  }

  predicate IsNumber(s: string) {
    |s| > 0 && AllDigits(s, 10)
  }

  /**
   * `parseFloat` of one part, in milliseconds, for the parts a label is made
   * of: digits, optionally followed by '.' and one to three digits.
   */
  function ParsePart(s: string): Option<nat> {
    ParseDecimal(Split(s, '.'))
  }

  /** A part split at '.': a whole number, or a whole number and a fraction of up to three places. */
  function ParseDecimal(p: seq<string>): Option<nat> {
    if |p| == 1 && IsNumber(p[0]) then Some(Value(p[0], 10) * SecondMs)
    else if |p| == 2 && IsNumber(p[0]) && IsNumber(p[1]) && |p[1]| <= 3 then
      Some(Value(p[0], 10) * SecondMs + FractionMs(p[1]))
    else None
  }

  /** The digits after the point, as milliseconds: ".5" is 500, ".05" is 50, ".005" is 5. */
  function FractionMs(f: string): nat
    requires IsNumber(f) && |f| <= 3
  {
    if |f| == 1 then Value(f, 10) * 100
    else if |f| == 2 then Value(f, 10) * 10
    else Value(f, 10)
  }

  /** `parseFloat` of each part. */
  function ParseParts(parts: seq<string>): (r: seq<Option<nat>>)
    ensures |r| == |parts| && forall i :: 0 <= i < |parts| ==> r[i] == ParsePart(parts[i])
  {
    seq(|parts|, i requires 0 <= i < |parts| => ParsePart(parts[i]))
  }

  /**
   * The loop of `seekToInitial`: `total = total * 60 + part` from the first
   * part on, `None` as soon as one part is `None`.
   */
  function Base60(values: seq<Option<nat>>): Option<nat> {
    if |values| == 0 then Some(0)
    else
      match Base60(values[..|values| - 1])
      case None => None
      case Some(total) =>
        match values[|values| - 1]
        case None => None
        case Some(part) => Some(total * 60 + part)
  }

  /** The position `seekToInitial` seeks to for a `t` parameter. */
  function ReadLabel(text: string): Option<nat> {
    Base60(ParseParts(Split(text, ':')))
  }

  /**
   * `seekToInitial`: no `t` parameter, no seek; otherwise the parts folded
   * in base 60, with `None` standing for the `NaN` of an unreadable part.
   */
  method SeekToInitial(t: Option<string>) returns (target: Option<nat>)
    ensures t.None? ==> target.None?
    ensures t.Some? ==> target == ReadLabel(t.value)
  {
    if t.None? {
      return None;
    }
    var parts := Split(t.value, ':');
    ghost var values := ParseParts(parts);
    var total: Option<nat> := Some(0);
    var i := 0;
    while i < |parts|
      invariant 0 <= i <= |parts| == |values|
      invariant total == Base60(values[..i])
    {
      Base60Snoc(values, i);
      var part := ParsePart(parts[i]);
      assert part == values[i];
      if total.Some? && part.Some? {
        total := Some(total.value * 60 + part.value);
      } else {
        total := None;
      }
      i := i + 1;
    }
    assert values[..i] == values;
    target := total;
  }

  // ---------------------------------------------------------------------
  // Splitting and joining

  lemma {:induction false} SplitNoSep(a: string, t: string, sep: char)
    requires sep !in a
    ensures Split(a + t, sep) == [a + Split(t, sep)[0]] + Split(t, sep)[1..]
    decreases |a|
  {
    if |a| == 0 {
      var r := Split(t, sep);
      assert a + t == t && a + r[0] == r[0];
      assert [r[0]] + r[1..] == r;
    } else {
      assert (a + t)[0] == a[0];
      assert (a + t)[1..] == a[1..] + t;
      SplitNoSep(a[1..], t, sep);
      assert [a[0]] + (a[1..] + Split(t, sep)[0]) == a + Split(t, sep)[0];
    }
  }

  lemma SplitWhole(a: string, sep: char)
    requires sep !in a
    ensures Split(a, sep) == [a]
  {
    SplitNoSep(a, "", sep);
    assert a + "" == a;
  }

  lemma SplitAtSep(a: string, t: string, sep: char)
    requires sep !in a
    ensures Split(a + [sep] + t, sep) == [a] + Split(t, sep)
  {
    assert a + [sep] + t == a + ([sep] + t);
    assert ([sep] + t)[1..] == t;
    var r := Split([sep] + t, sep);
    assert r == [""] + Split(t, sep);
    assert a + r[0] == a && r[1..] == Split(t, sep);
    SplitNoSep(a, [sep] + t, sep);
  }

  /** Splitting a join gives the parts back when no part holds the separator. */
  lemma {:induction false} SplitJoin(parts: seq<string>, sep: char)
    requires |parts| >= 1 && forall i :: 0 <= i < |parts| ==> sep !in parts[i]
    ensures Split(Join(parts, sep), sep) == parts
    decreases |parts|
  {
    if |parts| == 1 {
      SplitWhole(parts[0], sep);
    } else {
      SplitJoin(parts[1..], sep);
      SplitAtSep(parts[0], Join(parts[1..], sep), sep);
      assert [parts[0]] + parts[1..] == parts;
    }
  }

  /** Text after a join belongs to its last part. */
  lemma {:induction false} JoinSnoc(parts: seq<string>, sep: char, t: string)
    requires |parts| >= 1
    ensures Join(parts, sep) + t == Join(parts[..|parts| - 1] + [parts[|parts| - 1] + t], sep)
    decreases |parts|
  {
    var n := |parts|;
    var q := parts[..n - 1] + [parts[n - 1] + t];
    if n == 1 {
      assert q == [parts[0] + t];
    } else {
      var tail := parts[1..];
      JoinSnoc(tail, sep, t);
      assert q[0] == parts[0];
      assert q[1..] == tail[..|tail| - 1] + [tail[|tail| - 1] + t];
      assert parts[0] + [sep] + Join(tail, sep) + t == parts[0] + [sep] + (Join(tail, sep) + t);
    }
  }

  // ---------------------------------------------------------------------
  // Reading the parts back

  /** Decimal digits contain neither separator. */
  lemma NumberHasNoSeparator(s: string)
    requires AllDigits(s, 10)
    ensures ':' !in s && '.' !in s
  {
    forall i | 0 <= i < |s| ensures s[i] != ':' && s[i] != '.' {
      assert IsDigit(s[i], 10);
    }
  }

  /** A zero-padded decimal numeral is a number, and denotes its value. */
  lemma PaddedDecimal(n: nat, width: nat)
    ensures IsNumber(PadLeft(Decimal(n), width))
    ensures Value(PadLeft(Decimal(n), width), 10) == n
    ensures ':' !in PadLeft(Decimal(n), width) && '.' !in PadLeft(Decimal(n), width)
  {
    ValueOfNumeral(n, 10);
    var d := Decimal(n);
    if |d| < width {
      ValueIgnoresLeadingZeros(width - |d|, d, 10);
    }
    NumberHasNoSeparator(PadLeft(d, width));
  }

  /** Below 1000, the three-place numeral is exactly three digits. */
  lemma ThreePlaces(n: nat)
    requires n < 1000
    ensures |PadLeft(Decimal(n), 3)| == 3
  {
    assert Pow(10, 3) == 1000 by {
      assert Pow(10, 1) == 10;
      assert Pow(10, 2) == 100;
    }
    if n > 0 {
      DigitsLength(n, 10, 3);
    }
  }

  /** A whole part reads as that many seconds. */
  lemma ReadWhole(s: string)
    requires IsNumber(s)
    ensures ParsePart(s) == Some(Value(s, 10) * SecondMs)
  {
    NumberHasNoSeparator(s);
    SplitWhole(s, '.');
  }

  /** A part with a fraction reads as seconds plus the fraction, scaled to milliseconds. */
  lemma ReadFraction(a: string, b: string)
    requires IsNumber(a) && IsNumber(b) && |b| <= 3
    ensures ParsePart(a + "." + b) == Some(Value(a, 10) * SecondMs + FractionMs(b))
  {
    NumberHasNoSeparator(a);
    NumberHasNoSeparator(b);
    assert a + "." + b == a + ['.'] + b;
    SplitAtSep(a, b, '.');
    SplitWhole(b, '.');
    assert Split(a + "." + b, '.') == [a, b];
  }

  /** The label's parts: the components with the fraction appended to the last. */
  lemma LabelParts(components: seq<string>, fraction: string)
    requires |components| >= 1 && forall i :: 0 <= i < |components| ==> ':' !in components[i]
    requires ':' !in fraction
    ensures Split(Join(components, ':') + "." + fraction, ':')
      == components[..|components| - 1] + [components[|components| - 1] + "." + fraction]
  {
    var n := |components|;
    var parts := components[..n - 1] + [components[n - 1] + "." + fraction];
    assert Join(components, ':') + "." + fraction == Join(components, ':') + ("." + fraction);
    JoinSnoc(components, ':', "." + fraction);
    assert components[n - 1] + ("." + fraction) == components[n - 1] + "." + fraction;
    forall i | 0 <= i < |parts| ensures ':' !in parts[i] {
      if i < n - 1 {
        assert parts[i] == components[i];
      } else {
        assert parts[i] == components[n - 1] + "." + fraction;
      }
    }
    SplitJoin(parts, ':');
  }

  /** Reading a label in its three stages: split at ':', parse each part, fold in base 60. */
  lemma ReadStages(text: string, parts: seq<string>, values: seq<Option<nat>>, r: Option<nat>)
    requires Split(text, ':') == parts && ParseParts(parts) == values && Base60(values) == r
    ensures ReadLabel(text) == r
  {
  }

  /** One more step of the fold. */
  lemma Base60Snoc(values: seq<Option<nat>>, i: nat)
    requires i < |values|
    ensures Base60(values[..i + 1]) ==
      if Base60(values[..i]).Some? && values[i].Some? then Some(Base60(values[..i]).value * 60 + values[i].value)
      else None
  {
    assert values[..i + 1][..i] == values[..i];
  }

  lemma ReadOne(a: nat)
    ensures Base60([Some(a)]) == Some(a)
  {
    assert [Some(a)][..0] == [];
  }

  lemma ReadTwo(a: nat, b: nat)
    ensures Base60([Some(a), Some(b)]) == Some(a * 60 + b)
  {
    ReadOne(a);
    assert [Some(a), Some(b)][..1] == [Some(a)];
  }

  lemma ReadThree(a: nat, b: nat, c: nat)
    ensures Base60([Some(a), Some(b), Some(c)]) == Some((a * 60 + b) * 60 + c)
  {
    ReadTwo(a, b);
    assert [Some(a), Some(b), Some(c)][..2] == [Some(a), Some(b)];
  }

  /** The last part of a corrected label: the seconds and three decimal places. */
  function SecondsPart(c: Clock): string {
    PadLeft(Decimal(c.seconds), 2) + "." + PadLeft(Decimal(c.millis), 3)
  }

  /** The seconds and their three decimal places read back exactly. */
  lemma ReadSeconds(c: Clock)
    requires c.millis < 1000
    ensures ParsePart(SecondsPart(c)) == Some(c.seconds * SecondMs + c.millis)
  {
    PaddedDecimal(c.seconds, 2);
    PaddedDecimal(c.millis, 3);
    ThreePlaces(c.millis);
    ReadMillis(PadLeft(Decimal(c.seconds), 2), PadLeft(Decimal(c.millis), 3), c.seconds, c.millis);
  }

  /** Seconds with three decimal places, whatever digits spell them. */
  lemma ReadMillis(a: string, b: string, seconds: nat, millis: nat)
    requires IsNumber(a) && Value(a, 10) == seconds
    requires IsNumber(b) && |b| == 3 && Value(b, 10) == millis
    ensures ParsePart(a + "." + b) == Some(seconds * SecondMs + millis)
  {
    ReadFraction(a, b);
    var whole, fraction := Value(a, 10) * SecondMs, FractionMs(b);
    assert fraction == millis;
    assert whole == seconds * SecondMs;
  }

  /** A zero-padded hour or minute field reads as that many seconds. */
  lemma ReadField(n: nat, width: nat)
    ensures ParsePart(PadLeft(Decimal(n), width)) == Some(n * SecondMs)
  {
    PaddedDecimal(n, width);
    ReadWhole(PadLeft(Decimal(n), width));
  }

  /** The corrected label splits into its components, the last carrying the fraction. */
  lemma CorrectedParts(c: Clock)
    ensures Split(ClockLabel(c), ':') ==
        (if c.hours > 0 then [Decimal(c.hours)] else [])
        + (if c.hours > 0 || c.minutes > 0 then [PadLeft(Decimal(c.minutes), 2)] else [])
        + [SecondsPart(c)]
  {
    var h, m, sec := Decimal(c.hours), PadLeft(Decimal(c.minutes), 2), PadLeft(Decimal(c.seconds), 2);
    var f := PadLeft(Decimal(c.millis), 3);
    PaddedDecimal(c.hours, 0);
    assert PadLeft(h, 0) == h;
    PaddedDecimal(c.minutes, 2);
    PaddedDecimal(c.seconds, 2);
    PaddedDecimal(c.millis, 3);
    var components :=
      (if c.hours > 0 then [h] else []) + (if c.hours > 0 || c.minutes > 0 then [m] else []) + [sec];
    LabelParts(components, f);
    var n := |components|;
    assert components[..n - 1] == (if c.hours > 0 then [h] else []) + (if c.hours > 0 || c.minutes > 0 then [m] else []);
  }

  lemma ParsedOne(a: string, x: nat)
    requires ParsePart(a) == Some(x)
    ensures ParseParts([a]) == [Some(x)]
  {
  }

  lemma ParsedTwo(a: string, b: string, x: nat, y: nat)
    requires ParsePart(a) == Some(x) && ParsePart(b) == Some(y)
    ensures ParseParts([a, b]) == [Some(x), Some(y)]
  {
  }

  lemma ParsedThree(a: string, b: string, c: string, x: nat, y: nat, z: nat)
    requires ParsePart(a) == Some(x) && ParsePart(b) == Some(y) && ParsePart(c) == Some(z)
    ensures ParseParts([a, b, c]) == [Some(x), Some(y), Some(z)]
  {
  }

  /** The corrected label of a position with hours. */
  lemma RoundTripHours(c: Clock)
    requires c.hours > 0 && c.millis < 1000
    ensures ReadLabel(ClockLabel(c)) == Some(Total(c))
  {
    var h, m, last := Decimal(c.hours), PadLeft(Decimal(c.minutes), 2), SecondsPart(c);
    var x, y, z := c.hours * SecondMs, c.minutes * SecondMs, c.seconds * SecondMs + c.millis;
    assert Split(ClockLabel(c), ':') == [h, m, last] by {
      CorrectedParts(c);
      assert [h] + [m] + [last] == [h, m, last];
    }
    assert ParseParts([h, m, last]) == [Some(x), Some(y), Some(z)] by {
      ReadField(c.hours, 0);
      assert PadLeft(h, 0) == h;
      ReadField(c.minutes, 2);
      ReadSeconds(c);
      ParsedThree(h, m, last, x, y, z);
    }
    ReadThree(x, y, z);
    ReadStages(ClockLabel(c), [h, m, last], [Some(x), Some(y), Some(z)], Some((x * 60 + y) * 60 + z));
  }

  /** The corrected label of a position under an hour but with minutes. */
  lemma RoundTripMinutes(c: Clock)
    requires c.hours == 0 && c.minutes > 0 && c.millis < 1000
    ensures ReadLabel(ClockLabel(c)) == Some(Total(c))
  {
    var m, last := PadLeft(Decimal(c.minutes), 2), SecondsPart(c);
    var y, z := c.minutes * SecondMs, c.seconds * SecondMs + c.millis;
    assert Split(ClockLabel(c), ':') == [m, last] by {
      CorrectedParts(c);
      assert [] + [m] + [last] == [m, last];
    }
    assert ParseParts([m, last]) == [Some(y), Some(z)] by {
      ReadField(c.minutes, 2);
      ReadSeconds(c);
      ParsedTwo(m, last, y, z);
    }
    ReadTwo(y, z);
    ReadStages(ClockLabel(c), [m, last], [Some(y), Some(z)], Some(y * 60 + z));
  }

  /** The corrected label of a position under a minute. */
  lemma RoundTripSeconds(c: Clock)
    requires c.hours == 0 && c.minutes == 0 && c.millis < 1000
    ensures ReadLabel(ClockLabel(c)) == Some(Total(c))
  {
    var last := SecondsPart(c);
    var z := c.seconds * SecondMs + c.millis;
    assert Split(ClockLabel(c), ':') == [last] by {
      CorrectedParts(c);
    }
    assert ParseParts([last]) == [Some(z)] by {
      ReadSeconds(c);
      ParsedOne(last, z);
    }
    ReadOne(z);
    ReadStages(ClockLabel(c), [last], [Some(z)], Some(z));
  }

  /**
   * Seeking to the label of a position seeks to that position: the
   * corrected `formatSeconds` and `seekToInitial` are inverse.
   */
  lemma SeekRoundTrip(ms: nat)
    ensures ReadLabel(FormatSeconds(ms)) == Some(ms)
  {
    var c := ClockOf(ms);
    assert Total(c) == ms;
    if c.hours > 0 {
      RoundTripHours(c);
    } else if c.minutes > 0 {
      RoundTripMinutes(c);
    } else {
      RoundTripSeconds(c);
    }
  }

  /** Where the written label has minutes and three millisecond digits anyway, it is the corrected one. */
  lemma AsWrittenAgrees(ms: nat)
    requires ClockOf(ms).millis >= 100
    requires ClockOf(ms).hours == 0 || ClockOf(ms).minutes > 0
    ensures WrittenLabel(ms) == FormatSeconds(ms)
  {
    var n := ClockOf(ms).millis;
    assert Pow(10, 2) == 100 by {
      assert Pow(10, 1) == 10;
    }
    DigitsLength(n, 10, 2);
    assert PadLeft(Decimal(n), 3) == Decimal(n);
  }

  /** One hour and five seconds is written "1:05.0". */
  lemma HourWithoutMinutesLabel()
    ensures WrittenLabel(3_605_000) == Join(["1", "05"], ':') + "." + "0" == "1:05.0"
  {
    assert ClockOf(3_605_000) == Clock(1, 0, 5, 0);
    assert Decimal(1) == "1" && Decimal(5) == "5" && Decimal(0) == "0";
    assert PadLeft("5", 2) == "05";
    assert Join(["1", "05"], ':') == "1:05";
  }

  /** ... which seeks to 65 seconds, not to one hour and five seconds. */
  lemma HourWithoutMinutesExample()
    ensures WrittenLabel(3_605_000) == "1:05.0"
    ensures ReadLabel(WrittenLabel(3_605_000)) == Some(65_000)
  {
    HourWithoutMinutesLabel();
    HourWithoutMinutesParts();
    HourWithoutMinutesValues();
    ReadTwo(1000, 5000);
    ReadStages("1:05.0", ["1", "05.0"], [Some(1000), Some(5000)], Some(65_000));
  }

  lemma HourWithoutMinutesParts()
    ensures Split("1:05.0", ':') == ["1", "05.0"]
  {
    var components := ["1", "05"];
    LabelParts(components, "0");
    assert components[1..] == ["05"];
    assert Join(components, ':') == "1" + [':'] + "05" == "1:05";
    assert Join(components, ':') + "." + "0" == "1:05.0";
    assert components[..1] == ["1"] && components[1] + "." + "0" == "05.0";
    assert components[..1] + [components[1] + "." + "0"] == ["1", "05.0"];
  }

  lemma HourWithoutMinutesValues()
    ensures ParseParts(["1", "05.0"]) == [Some(1000), Some(5000)]
  {
    assert Value("1", 10) == 1;
    ReadWhole("1");
    assert Value("05", 10) == 5 && Value("0", 10) == 0;
    ReadFraction("05", "0");
    assert "05" + "." + "0" == "05.0";
    ParsedTwo("1", "05.0", 1000, 5000);
  }

  /** Five seconds and 50 milliseconds is written "05.50". */
  lemma UnpaddedMillisLabel()
    ensures WrittenLabel(5_050) == Join(["05"], ':') + "." + "50" == "05.50"
  {
    assert ClockOf(5_050) == Clock(0, 0, 5, 50);
    assert Decimal(5) == "5" && Decimal(50) == "50";
    assert PadLeft("5", 2) == "05";
  }

  /** ... which seeks to 5.5 seconds. */
  lemma UnpaddedMillisExample()
    ensures WrittenLabel(5_050) == "05.50"
    ensures ReadLabel(WrittenLabel(5_050)) == Some(5_500)
  {
    UnpaddedMillisLabel();
    UnpaddedMillisParts();
    UnpaddedMillisValues();
    ReadOne(5500);
    ReadStages("05.50", ["05.50"], [Some(5500)], Some(5500));
  }

  lemma UnpaddedMillisParts()
    ensures Split("05.50", ':') == ["05.50"]
  {
    var components := ["05"];
    LabelParts(components, "50");
    assert Join(components, ':') + "." + "50" == "05.50";
    assert components[..0] + [components[0] + "." + "50"] == ["05.50"];
  }

  lemma UnpaddedMillisValues()
    ensures ParseParts(["05.50"]) == [Some(5500)]
  {
    assert Value("05", 10) == 5 && Value("50", 10) == 50;
    ReadFraction("05", "50");
    assert "05" + "." + "50" == "05.50";
    ParsedOne("05.50", 5500);
  }
}
