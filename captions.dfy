/** Caption records: one recognised phrase, first with its engine times in ticks, then with
    the times written as timestamps. */
module Captions {
  import opened Wrappers
  import opened Lex
  import opened Timestamp

  /** A caption dictionary in its two shapes: as the recognised handler appends it
      ({text, offset, duration}, in 100-ns ticks) and as the conversion loop leaves it
      ({text, start_time, end_time}). */
  datatype Caption =
    | Raw(text: string, offset: int, duration: int)
    | Timed(text: string, startTime: string, endTime: string)

  predicate AllRaw(cs: seq<Caption>)
  {
    forall i :: 0 <= i < |cs| ==> cs[i].Raw?
  }

  predicate AllTimed(cs: seq<Caption>)
  {
    forall i :: 0 <= i < |cs| ==> cs[i].Timed?
  }

  /** Where a caption ends, in ticks: its offset plus its duration. */
  function EndTicks(c: Caption): int
    requires c.Raw?
  {
    c.offset + c.duration
  }

  /** One step of the conversion loop: the start is the offset, the end the offset plus the
      duration, each formatted on its own; the text stays, offset and duration go. */
  function ToTimed(c: Caption): Caption
    requires c.Raw?
  {
    Timed(c.text, FormatTime(c.offset), FormatTime(EndTicks(c)))
  }

  /** The whole conversion: every caption converted, in place, in order. */
  function Timeline(cs: seq<Caption>): (r: seq<Caption>)
    requires AllRaw(cs)
    ensures |r| == |cs| && AllTimed(r)
  {
    seq(|cs|, i requires 0 <= i < |cs| => ToTimed(cs[i]))
  }

  /** One converted caption keeps its text, and its timestamps read back as its start and
      end in whole milliseconds. */
  lemma ToTimedTimes(c: Caption)
    requires c.Raw?
    ensures ToTimed(c).Timed? && ToTimed(c).text == c.text
    ensures c.offset >= 0 ==> ParseTimestamp(ToTimed(c).startTime) == Some(c.offset / TicksPerMilli)
    ensures EndTicks(c) >= 0 ==>
              ParseTimestamp(ToTimed(c).endTime) == Some(EndTicks(c) / TicksPerMilli)
  {
    if c.offset >= 0 {
      ParseFormatTime(c.offset);
    }
    if EndTicks(c) >= 0 {
      ParseFormatTime(EndTicks(c));
    }
  }

  /** The conversion keeps the number and the order of the captions and every text, and each
      record's timestamps read back as its caption's start and end in whole milliseconds. */
  lemma TimelineKeepsCaptions(cs: seq<Caption>)
    requires AllRaw(cs)
    ensures |Timeline(cs)| == |cs| && AllTimed(Timeline(cs))
    ensures forall i :: 0 <= i < |cs| ==> Timeline(cs)[i].text == cs[i].text
    ensures forall i :: 0 <= i < |cs| && cs[i].offset >= 0 ==>
              ParseTimestamp(Timeline(cs)[i].startTime) == Some(cs[i].offset / TicksPerMilli)
    ensures forall i :: 0 <= i < |cs| && EndTicks(cs[i]) >= 0 ==>
              ParseTimestamp(Timeline(cs)[i].endTime) == Some(EndTicks(cs[i]) / TicksPerMilli)
  {
    forall i | 0 <= i < |cs|
      ensures Timeline(cs)[i] == ToTimed(cs[i])
      ensures cs[i].offset >= 0 ==> ParseTimestamp(ToTimed(cs[i]).startTime) == Some(cs[i].offset / TicksPerMilli)
      ensures EndTicks(cs[i]) >= 0 ==>
                ParseTimestamp(ToTimed(cs[i]).endTime) == Some(EndTicks(cs[i]) / TicksPerMilli)
    {
      ToTimedTimes(cs[i]);
    }
  }

  /** Timeline followed by a caption more is the timeline of the longer list. */
  lemma TimelineAppend(cs: seq<Caption>, c: Caption)
    requires AllRaw(cs) && c.Raw?
    ensures AllRaw(cs + [c]) && Timeline(cs + [c]) == Timeline(cs) + [ToTimed(c)]
  {
  }

  /** With a non-negative offset and duration a caption never ends before it starts: the end
      timestamp is at least as long, an equally long one sorts no earlier as a string, and
      below 100 hours both are twelve characters long. */
  lemma StartNotAfterEnd(c: Caption)
    requires c.Raw? && c.offset >= 0 && c.duration >= 0
    ensures ParseTimestamp(ToTimed(c).startTime).Some? && ParseTimestamp(ToTimed(c).endTime).Some?
    ensures ParseTimestamp(ToTimed(c).startTime).value <= ParseTimestamp(ToTimed(c).endTime).value
    ensures |ToTimed(c).startTime| <= |ToTimed(c).endTime|
    ensures |ToTimed(c).startTime| == |ToTimed(c).endTime| ==> LexLe(ToTimed(c).startTime, ToTimed(c).endTime)
    ensures EndTicks(c) < HundredHours ==> |ToTimed(c).startTime| == 12 == |ToTimed(c).endTime|
  {
    FormatTimeMonotone(c.offset, EndTicks(c));
  }

  /** Below 100 hours every record of a list of well-ordered captions has start <= end as
      strings, as the record invariant demands. */
  lemma TimelineOrdered(cs: seq<Caption>)
    requires AllRaw(cs)
    requires forall i :: 0 <= i < |cs| ==> cs[i].offset >= 0 && cs[i].duration >= 0
    requires forall i :: 0 <= i < |cs| ==> EndTicks(cs[i]) < HundredHours
    ensures forall i :: 0 <= i < |cs| ==> LexLe(Timeline(cs)[i].startTime, Timeline(cs)[i].endTime)
  {
    forall i | 0 <= i < |cs|
      ensures LexLe(Timeline(cs)[i].startTime, Timeline(cs)[i].endTime)
    {
      StartNotAfterEnd(cs[i]);
    }
  }

  /** Captions delivered in non-decreasing offset order keep that order through the
      conversion: the start timestamps read back in non-decreasing order, and below 100 hours
      they also sort that way as strings. */
  lemma TimelineStartsOrdered(cs: seq<Caption>)
    requires AllRaw(cs)
    requires forall i :: 0 <= i < |cs| ==> cs[i].offset >= 0
    requires forall i, j :: 0 <= i <= j < |cs| ==> cs[i].offset <= cs[j].offset
    ensures forall i, j :: 0 <= i <= j < |cs| ==>
              ParseTimestamp(Timeline(cs)[i].startTime).Some? && ParseTimestamp(Timeline(cs)[j].startTime).Some?
              && ParseTimestamp(Timeline(cs)[i].startTime).value <= ParseTimestamp(Timeline(cs)[j].startTime).value
    ensures forall i, j :: 0 <= i <= j < |cs| && cs[j].offset < HundredHours ==>
              LexLe(Timeline(cs)[i].startTime, Timeline(cs)[j].startTime)
  {
    forall i, j | 0 <= i <= j < |cs|
      ensures ParseTimestamp(Timeline(cs)[i].startTime).Some? && ParseTimestamp(Timeline(cs)[j].startTime).Some?
      ensures ParseTimestamp(Timeline(cs)[i].startTime).value <= ParseTimestamp(Timeline(cs)[j].startTime).value
      ensures cs[j].offset < HundredHours ==> LexLe(Timeline(cs)[i].startTime, Timeline(cs)[j].startTime)
    {
      FormatTimeMonotone(cs[i].offset, cs[j].offset);
    }
  }

  /** Offset 0 and a duration of one second give 00:00:00.000 to 00:00:01.000. */
  lemma OneSecondCaption(text: string)
    ensures ToTimed(Raw(text, 0, TicksPerSecond)) == Timed(text, "00:00:00.000", "00:00:01.000")
  {
    FormatTimeWholeSeconds();
  }
}
