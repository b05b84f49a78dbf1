/** The time formatter (format_time): a time, given exactly as a count of 100-nanosecond
    ticks, written as HH:MM:SS.mmm. */
module Timestamp {
  import opened Wrappers
  import opened Lex
  import opened Digits

  /** The recognition engine reports offsets and durations in 100-nanosecond ticks. */
  const TicksPerSecond: nat := 10_000_000
  const TicksPerMilli: nat := 10_000
  /** 100 hours in ticks: from here on the hour field needs three digits. */
  const HundredHours: nat := 100 * 3600 * TicksPerSecond

  /** Python's int() applied to the exact quotient a / b: it rounds toward zero. */
  function TruncDiv(a: int, b: nat): int
    requires b > 0
  {
    if a >= 0 then a / b else -((-a) / b)
  }

  datatype Fields = Fields(hours: int, minutes: int, seconds: int, millis: int)

  /** The four fields format_time computes from the time ticks / 10^7 seconds: int() truncates
      toward zero, while // and % on the whole seconds floor (as Dafny's / and % do for a
      positive divisor). */
  function Split(ticks: int): Fields
  {
    var whole := TruncDiv(ticks, 10_000_000);
    var millis := TruncDiv(ticks - whole * 10_000_000, 10_000);
    Fields(whole / 3600, (whole / 60) % 60, whole % 60, millis)
  }

  /** format_time: hours zero-padded to at least two digits (never capped), minutes and seconds
      to two, milliseconds to three. */
  function FormatTime(ticks: int): string
  {
    var f := Split(ticks);
    Pad(f.hours, 2) + ":" + Pad(f.minutes, 2) + ":" + Pad(f.seconds, 2) + "." + Pad(f.millis, 3)
  }

  /** The number of whole milliseconds the four fields stand for. */
  function TotalMillis(f: Fields): int
  {
    ((f.hours * 60 + f.minutes) * 60 + f.seconds) * 1000 + f.millis
  }

  /** Reads a timestamp written as FormatTime writes non-negative times (at least two hour
      digits) back into whole milliseconds. */
  function ParseTimestamp(s: string): (r: Option<nat>)
  {
    if |s| < 12 then None
    else
      var n := |s|;
      if s[n - 10] == ':' && s[n - 7] == ':' && s[n - 4] == '.'
      then ParseFields(s[..n - 10], s[n - 9..n - 7], s[n - 6..n - 4], s[n - 3..])
      else None
  }

  /** The milliseconds four digit strings stand for as hours, minutes, seconds and
      milliseconds, when they are digits and minutes and seconds are below 60. */
  function ParseFields(h: string, m: string, sec: string, ms: string): Option<nat>
  {
    if AllDigits(h) && AllDigits(m) && AllDigits(sec) && AllDigits(ms) && Value(m) < 60 && Value(sec) < 60
    then Some(TotalMillis(Fields(Value(h), Value(m), Value(sec), Value(ms))))
    else None
  }

  // ---------------------------------------------------------------------------------------
  // The fields

  lemma MillisCompose(u: nat)
    ensures (u / TicksPerSecond) * 1000 + (u % TicksPerSecond) / TicksPerMilli == u / TicksPerMilli
  {
    var q, r := u / TicksPerSecond, u % TicksPerSecond;
    var q', r' := r / TicksPerMilli, r % TicksPerMilli;
    assert u == TicksPerMilli * (q * 1000 + q') + r';
  }

  lemma WholeCompose(w: int)
    ensures (w / 3600 * 60 + (w / 60) % 60) * 60 + w % 60 == w
  {
    var q := w / 60;
    assert w == 60 * q + w % 60;
    assert q == 60 * (q / 60) + q % 60;
    assert w == 3600 * (q / 60) + (60 * (q % 60) + w % 60);
    assert w / 3600 == q / 60;
  }

  /** Minutes and seconds are always in 0..59 and milliseconds have at most three digits;
      for a non-negative time no field is negative and the milliseconds are in 0..999. */
  lemma SplitBounds(ticks: int)
    ensures var f := Split(ticks);
      && 0 <= f.minutes < 60 && 0 <= f.seconds < 60 && -1000 < f.millis < 1000
      && (ticks >= 0 ==> 0 <= f.hours && 0 <= f.millis)
  {
    if ticks < 0 {
      var u := -ticks;
      assert ticks - TruncDiv(ticks, TicksPerSecond) * TicksPerSecond == -(u % TicksPerSecond);
    }
  }

  /** The fields recompose the time: hours*3600 + minutes*60 + seconds is the whole-second
      part of the time (so hours are not capped at 24), and with the milliseconds added the
      time in whole milliseconds, truncated, never rounded. */
  lemma SplitReconstructs(ticks: int)
    ensures var f := Split(ticks);
      && (f.hours * 60 + f.minutes) * 60 + f.seconds == TruncDiv(ticks, TicksPerSecond)
      && TotalMillis(f) == TruncDiv(ticks, TicksPerMilli)
  {
    var f := Split(ticks);
    var w := TruncDiv(ticks, TicksPerSecond);
    WholeCompose(w);
    if ticks >= 0 {
      MillisCompose(ticks);
    } else {
      var u := -ticks;
      MillisCompose(u);
      assert ticks - w * TicksPerSecond == -(u % TicksPerSecond);
      assert f.millis == -((u % TicksPerSecond) / TicksPerMilli);
    }
  }

  // ---------------------------------------------------------------------------------------
  // The layout of the string

  /** The width of the hour field of a non-negative time. */
  function HourWidth(ticks: int): nat
    requires ticks >= 0
  {
    SplitBounds(ticks);
    Max(2, Width(Split(ticks).hours))
  }

  /** The fields of a non-negative time, each at its fixed width. */
  function Layout(f: Fields, w: nat): string
    requires 0 <= f.hours && 0 <= f.minutes && 0 <= f.seconds && 0 <= f.millis
  {
    Fixed(f.hours, w) + Tail(f)
  }

  /** Everything after the hour field. */
  function Tail(f: Fields): string
    requires 0 <= f.minutes && 0 <= f.seconds && 0 <= f.millis
  {
    ":" + Fixed(f.minutes, 2) + SecondsTail(f)
  }

  /** Everything after the minute field. */
  function SecondsTail(f: Fields): string
    requires 0 <= f.seconds && 0 <= f.millis
  {
    ":" + Fixed(f.seconds, 2) + MillisTail(f)
  }

  /** Everything after the second field. */
  function MillisTail(f: Fields): string
    requires 0 <= f.millis
  {
    "." + Fixed(f.millis, 3)
  }

  /** For a non-negative time each field is its digits at a fixed width. */
  lemma FormatTimePieces(ticks: int)
    requires ticks >= 0
    ensures var f := Split(ticks);
      && 0 <= f.hours < Pow10(HourWidth(ticks))
      && FormatTime(ticks) == Layout(f, HourWidth(ticks))
  {
    var f := Split(ticks);
    SplitBounds(ticks);
    WidthFits(f.hours, HourWidth(ticks));
    assert Pow10(2) == 100 && Pow10(3) == 1000;
    WidthFits(f.minutes, 2);
    WidthFits(f.seconds, 2);
    WidthFits(f.millis, 3);
  }

  /** HH:MM:SS.mmm: a hour field of at least two digits, then a colon, two digits, a colon,
      two digits, a dot and three digits, and nothing else. */
  lemma FormatTimeLayout(ticks: int)
    requires ticks >= 0
    ensures var s := FormatTime(ticks); var n := |s|;
      && n == HourWidth(ticks) + 10 && n >= 12
      && s[n - 10] == ':' && s[n - 7] == ':' && s[n - 4] == '.'
      && forall i :: 0 <= i < n && i != n - 10 && i != n - 7 && i != n - 4 ==> IsDigit(s[i])
  {
    FormatTimePieces(ticks);
  }

  /** The characters a timestamp can hold, negative times included. */
  predicate StampChar(ch: char)
  {
    IsDigit(ch) || ch == ':' || ch == '.' || ch == '-'
  }

  /** A timestamp holds only digits, colons, a dot and minus signs: never a space or a line
      break. */
  lemma FormatTimeChars(ticks: int)
    ensures forall ch :: ch in FormatTime(ticks) ==> StampChar(ch)
  {
    var f := Split(ticks);
    PadChars(f.hours, 2);
    PadChars(f.minutes, 2);
    PadChars(f.seconds, 2);
    PadChars(f.millis, 3);
  }

  /** The timestamp is exactly twelve characters long until 100 hours, and longer from then on. */
  lemma FormatTimeLength(ticks: int)
    requires ticks >= 0
    ensures |FormatTime(ticks)| == 12 <==> ticks < HundredHours
  {
    var f := Split(ticks);
    FormatTimePieces(ticks);
    SplitReconstructs(ticks);
    SplitBounds(ticks);
    WidthFits(f.hours, 2);
    assert Pow10(2) == 100;
    assert f.hours < 100 <==> ticks / TicksPerSecond < 360000;
  }

  /** A later time never has a shorter timestamp. */
  lemma FormatTimeLengthMonotone(a: int, b: int)
    requires 0 <= a <= b
    ensures |FormatTime(a)| <= |FormatTime(b)|
  {
    FormatTimePieces(a);
    FormatTimePieces(b);
    SplitBounds(a);
    SplitBounds(b);
    WidthMonotone(Split(a).hours, Split(b).hours);
  }

  // ---------------------------------------------------------------------------------------
  // Reading a timestamp back

  lemma {:induction false} SliceOf(s: string, a: string, b: string, c: string, d: string)
    requires |b| == 2 && |c| == 2 && |d| == 3
    requires s == a + ":" + b + ":" + c + "." + d
    ensures var n := |s|;
      && n == |a| + 10
      && s[..n - 10] == a && s[n - 10] == ':' && s[n - 9..n - 7] == b && s[n - 7] == ':'
      && s[n - 6..n - 4] == c && s[n - 4] == '.' && s[n - 3..] == d
  {
  }

  lemma ParsePieces(s: string, a: string, b: string, c: string, d: string)
    requires |a| >= 2 && |b| == 2 && |c| == 2 && |d| == 3
    requires s == a + ":" + b + ":" + c + "." + d
    ensures ParseTimestamp(s) == ParseFields(a, b, c, d)
  {
    SliceOf(s, a, b, c, d);
  }

  lemma ParseFieldsValues(a: string, b: string, c: string, d: string, f: Fields)
    requires AllDigits(a) && AllDigits(b) && AllDigits(c) && AllDigits(d)
    requires Value(a) == f.hours && Value(b) == f.minutes && Value(c) == f.seconds && Value(d) == f.millis
    requires f.minutes < 60 && f.seconds < 60
    ensures ParseFields(a, b, c, d) == Some(TotalMillis(f))
  {
    assert Fields(Value(a), Value(b), Value(c), Value(d)) == f;
  }

  /** A layout reads back as the milliseconds its fields stand for. */
  lemma ParseLayout(f: Fields, w: nat)
    requires w >= 2 && 0 <= f.hours < Pow10(w)
    requires 0 <= f.minutes < 60 && 0 <= f.seconds < 60 && 0 <= f.millis < 1000
    ensures ParseTimestamp(Layout(f, w)) == Some(TotalMillis(f))
  {
    assert Pow10(2) == 100 && Pow10(3) == 1000;
    var a, b, c, d := Fixed(f.hours, w), Fixed(f.minutes, 2), Fixed(f.seconds, 2), Fixed(f.millis, 3);
    assert Layout(f, w) == a + ":" + b + ":" + c + "." + d;
    ParsePieces(Layout(f, w), a, b, c, d);
    FixedValue(f.hours, w);
    FixedValue(f.minutes, 2);
    FixedValue(f.seconds, 2);
    FixedValue(f.millis, 3);
    ParseFieldsValues(a, b, c, d, f);
  }

  /** A non-negative time's timestamp reads back as the time in whole milliseconds. */
  lemma ParseFormatTime(ticks: int)
    requires ticks >= 0
    ensures ParseTimestamp(FormatTime(ticks)) == Some(ticks / TicksPerMilli)
  {
    FormatTimePieces(ticks);
    SplitBounds(ticks);
    SplitReconstructs(ticks);
    ParseLayout(Split(ticks), HourWidth(ticks));
  }

  // ---------------------------------------------------------------------------------------
  // Order

  /** Digit-by-digit comparison in a mixed radix: the higher place decides, and the lower
      place only on a tie. */
  lemma MixedRadix(x1: int, y1: int, x2: int, y2: int, base: nat)
    requires base == 60 || base == 1000
    requires 0 <= y1 < base && 0 <= y2 < base
    ensures x1 * base + y1 <= x2 * base + y2 <==> x1 < x2 || (x1 == x2 && y1 <= y2)
    ensures x1 * base + y1 == x2 * base + y2 <==> x1 == x2 && y1 == y2
  {
    if base == 60 {
      assert x1 * base == x1 * 60 && x2 * base == x2 * 60;
    } else {
      assert x1 * base == x1 * 1000 && x2 * base == x2 * 1000;
    }
  }

  lemma PrefixChar(c: char, y1: string, y2: string)
    ensures LexLe([c] + y1, [c] + y2) <==> LexLe(y1, y2)
  {
    LexLeConcat([c], y1, [c], y2);
  }

  /** Field-wise order, most significant field first. */
  predicate FieldsLe(f: Fields, g: Fields)
  {
    f.hours < g.hours || (f.hours == g.hours &&
      (f.minutes < g.minutes || (f.minutes == g.minutes &&
        (f.seconds < g.seconds || (f.seconds == g.seconds && f.millis <= g.millis)))))
  }

  /** A separator followed by a field of fixed width: the field decides, the rest only on a tie. */
  lemma SeparatedOrder(c: char, x1: string, y1: string, x2: string, y2: string)
    requires |x1| == |x2|
    ensures LexLe([c] + x1 + y1, [c] + x2 + y2) <==> LexLt(x1, x2) || (x1 == x2 && LexLe(y1, y2))
    ensures [c] + x1 + y1 == [c] + x2 + y2 <==> x1 == x2 && y1 == y2
  {
    assert [c] + x1 + y1 == [c] + (x1 + y1) && [c] + x2 + y2 == [c] + (x2 + y2);
    PrefixChar(c, x1 + y1, x2 + y2);
    LexLeConcat(x1, y1, x2, y2);
    if [c] + x1 + y1 == [c] + x2 + y2 {
      assert x1 + y1 == ([c] + x1 + y1)[1..];
      assert x1 == (x1 + y1)[..|x1|] && x2 == (x2 + y2)[..|x2|];
      assert y1 == (x1 + y1)[|x1|..] && y2 == (x2 + y2)[|x2|..];
    }
  }

  lemma MillisTailOrder(f: Fields, g: Fields)
    requires 0 <= f.millis < 1000 && 0 <= g.millis < 1000
    ensures LexLe(MillisTail(f), MillisTail(g)) <==> f.millis <= g.millis
    ensures MillisTail(f) == MillisTail(g) <==> f.millis == g.millis
  {
    assert Pow10(3) == 1000;
    FixedOrder(f.millis, g.millis, 3);
    SeparatedOrder('.', Fixed(f.millis, 3), [], Fixed(g.millis, 3), []);
    assert MillisTail(f) == ['.'] + Fixed(f.millis, 3) + [];
    assert MillisTail(g) == ['.'] + Fixed(g.millis, 3) + [];
  }

  lemma SecondsTailOrder(f: Fields, g: Fields)
    requires 0 <= f.seconds < 100 && 0 <= g.seconds < 100
    requires 0 <= f.millis < 1000 && 0 <= g.millis < 1000
    ensures LexLe(SecondsTail(f), SecondsTail(g)) <==>
      f.seconds < g.seconds || (f.seconds == g.seconds && f.millis <= g.millis)
    ensures SecondsTail(f) == SecondsTail(g) <==> f.seconds == g.seconds && f.millis == g.millis
  {
    assert Pow10(2) == 100;
    FixedOrder(f.seconds, g.seconds, 2);
    MillisTailOrder(f, g);
    SeparatedOrder(':', Fixed(f.seconds, 2), MillisTail(f), Fixed(g.seconds, 2), MillisTail(g));
  }

  /** The part after the hours compares as its fields do. */
  lemma TailOrder(f: Fields, g: Fields)
    requires 0 <= f.minutes < 100 && 0 <= g.minutes < 100 && 0 <= f.seconds < 100 && 0 <= g.seconds < 100
    requires 0 <= f.millis < 1000 && 0 <= g.millis < 1000
    ensures LexLe(Tail(f), Tail(g)) <==>
      f.minutes < g.minutes || (f.minutes == g.minutes &&
        (f.seconds < g.seconds || (f.seconds == g.seconds && f.millis <= g.millis)))
    ensures Tail(f) == Tail(g) <==>
      f.minutes == g.minutes && f.seconds == g.seconds && f.millis == g.millis
  {
    assert Pow10(2) == 100;
    FixedOrder(f.minutes, g.minutes, 2);
    SecondsTailOrder(f, g);
    SeparatedOrder(':', Fixed(f.minutes, 2), SecondsTail(f), Fixed(g.minutes, 2), SecondsTail(g));
  }

  /** Two layouts of one hour width compare as strings the way their fields compare. */
  lemma LayoutOrder(f: Fields, g: Fields, w: nat)
    requires 0 <= f.hours < Pow10(w) && 0 <= g.hours < Pow10(w)
    requires 0 <= f.minutes < 100 && 0 <= g.minutes < 100 && 0 <= f.seconds < 100 && 0 <= g.seconds < 100
    requires 0 <= f.millis < 1000 && 0 <= g.millis < 1000
    ensures LexLe(Layout(f, w), Layout(g, w)) <==> FieldsLe(f, g)
  {
    FixedOrder(f.hours, g.hours, w);
    TailOrder(f, g);
    LexLeConcat(Fixed(f.hours, w), Tail(f), Fixed(g.hours, w), Tail(g));
  }

  /** With minutes and seconds below 60 and milliseconds below 1000, the field-wise order is
      the order of the milliseconds the fields stand for. */
  lemma FieldsOrder(f: Fields, g: Fields)
    requires 0 <= f.minutes < 60 && 0 <= g.minutes < 60 && 0 <= f.seconds < 60 && 0 <= g.seconds < 60
    requires 0 <= f.millis < 1000 && 0 <= g.millis < 1000
    ensures FieldsLe(f, g) <==> TotalMillis(f) <= TotalMillis(g)
  {
    MixedRadix(f.hours, f.minutes, g.hours, g.minutes, 60);
    MixedRadix(f.hours * 60 + f.minutes, f.seconds, g.hours * 60 + g.minutes, g.seconds, 60);
    MixedRadix((f.hours * 60 + f.minutes) * 60 + f.seconds, f.millis,
               (g.hours * 60 + g.minutes) * 60 + g.seconds, g.millis, 1000);
  }

  /** Two equally long timestamps compare as strings the way the times compare in whole
      milliseconds, in both directions. */
  lemma FormatTimeOrder(a: int, b: int)
    requires 0 <= a && 0 <= b && |FormatTime(a)| == |FormatTime(b)|
    ensures LexLe(FormatTime(a), FormatTime(b)) <==> a / TicksPerMilli <= b / TicksPerMilli
  {
    FormatTimePieces(a);
    FormatTimePieces(b);
    SplitBounds(a);
    SplitBounds(b);
    SplitReconstructs(a);
    SplitReconstructs(b);
    var w := HourWidth(a);
    assert HourWidth(b) == w;
    LayoutOrder(Split(a), Split(b), w);
    FieldsOrder(Split(a), Split(b));
  }

  /** A time below 100 hours whose fields are known is written with a two-digit hour. */
  lemma TwoDigitHourStamp(ticks: int, f: Fields)
    requires ticks >= 0 && Split(ticks) == f && f.hours < 100
    ensures FormatTime(ticks) == Fixed(f.hours, 2) + ":" + Fixed(f.minutes, 2) + ":" + Fixed(f.seconds, 2) + "."
                                 + Fixed(f.millis, 3)
  {
    FormatTimePieces(ticks);
    WidthFits(f.hours, 2);
    assert Pow10(2) == 100;
    assert HourWidth(ticks) == 2;
  }

  /** A time of 100 to 999 hours whose fields are known is written with a three-digit hour. */
  lemma ThreeDigitHourStamp(ticks: int, f: Fields)
    requires ticks >= 0 && Split(ticks) == f && 100 <= f.hours < 1000
    ensures FormatTime(ticks) == Fixed(f.hours, 3) + ":" + Fixed(f.minutes, 2) + ":" + Fixed(f.seconds, 2) + "."
                                 + Fixed(f.millis, 3)
  {
    FormatTimePieces(ticks);
    WidthFits(f.hours, 2);
    WidthFits(f.hours, 3);
    assert Pow10(2) == 100 && Pow10(3) == 1000;
    assert HourWidth(ticks) == 3;
  }

  /** For non-negative times a <= b: the later timestamp is at least as long, an equally long
      one sorts no earlier as a string, and both read back in order. */
  lemma FormatTimeMonotone(a: int, b: int)
    requires 0 <= a <= b
    ensures ParseTimestamp(FormatTime(a)) == Some(a / TicksPerMilli)
    ensures ParseTimestamp(FormatTime(b)) == Some(b / TicksPerMilli)
    ensures a / TicksPerMilli <= b / TicksPerMilli
    ensures |FormatTime(a)| <= |FormatTime(b)|
    ensures |FormatTime(a)| == |FormatTime(b)| ==> LexLe(FormatTime(a), FormatTime(b))
    ensures b < HundredHours ==> |FormatTime(a)| == 12 == |FormatTime(b)|
  {
    ParseFormatTime(a);
    ParseFormatTime(b);
    FormatTimeLengthMonotone(a, b);
    if |FormatTime(a)| == |FormatTime(b)| {
      FormatTimeOrder(a, b);
    }
    FormatTimeLength(a);
    FormatTimeLength(b);
  }

  /** Past 100 hours the string order and the time order part: the later time sorts first. */
  lemma OrderBreaksAtHundredHours()
    ensures FormatTime(HundredHours - TicksPerSecond) == "99:59:59.000"
    ensures FormatTime(HundredHours) == "100:00:00.000"
    ensures LexLt(FormatTime(HundredHours), FormatTime(HundredHours - TicksPerSecond))
  {
    TwoDigitHourStamp(3_599_990_000_000, Fields(99, 59, 59, 0));
    ThreeDigitHourStamp(3_600_000_000_000, Fields(100, 0, 0, 0));
    LastSecondString();
    HundredHoursString();
    assert LexLe("100:00:00.000", "99:59:59.000");
  }

  lemma LastSecondString()
    ensures Fixed(99, 2) + ":" + Fixed(59, 2) + ":" + Fixed(59, 2) + "." + Fixed(0, 3) == "99:59:59.000"
  {
  }

  lemma HundredHoursString()
    ensures Fixed(100, 3) + ":" + Fixed(0, 2) + ":" + Fixed(0, 2) + "." + Fixed(0, 3) == "100:00:00.000"
  {
  }

  /** Time zero, and one second, which is how a caption of offset 0 and duration 10^7 ticks
      is written. */
  lemma FormatTimeWholeSeconds()
    ensures FormatTime(0) == "00:00:00.000"
    ensures FormatTime(TicksPerSecond) == "00:00:01.000"
  {
    TwoDigitHourStamp(0, Fields(0, 0, 0, 0));
    TwoDigitHourStamp(10_000_000, Fields(0, 0, 1, 0));
    ZeroString();
    OneSecondString();
  }

  lemma ZeroString()
    ensures Fixed(0, 2) + ":" + Fixed(0, 2) + ":" + Fixed(0, 2) + "." + Fixed(0, 3) == "00:00:00.000"
  {
  }

  lemma OneSecondString()
    ensures Fixed(0, 2) + ":" + Fixed(0, 2) + ":" + Fixed(1, 2) + "." + Fixed(0, 3) == "00:00:01.000"
  {
  }

  /** 3661.25 s, and 3661.2519 s, whose fourth decimal is cut rather than rounded. */
  lemma FormatTimeTruncates()
    ensures FormatTime(36_612_500_000) == "01:01:01.250"
    ensures FormatTime(36_612_519_000) == "01:01:01.251"
  {
    TwoDigitHourStamp(36_612_500_000, Fields(1, 1, 1, 250));
    TwoDigitHourStamp(36_612_519_000, Fields(1, 1, 1, 251));
    QuarterString();
    TruncatedString();
  }

  lemma QuarterString()
    ensures Fixed(1, 2) + ":" + Fixed(1, 2) + ":" + Fixed(1, 2) + "." + Fixed(250, 3) == "01:01:01.250"
  {
  }

  lemma TruncatedString()
    ensures Fixed(1, 2) + ":" + Fixed(1, 2) + ":" + Fixed(1, 2) + "." + Fixed(251, 3) == "01:01:01.251"
  {
  }
}
