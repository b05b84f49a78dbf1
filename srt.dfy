/** SRT output (generate_srt): one numbered block per caption, in list order, and a reader
    for that layout that recovers the captions. */
module Subtitles {
  import opened Wrappers
  import opened Digits
  import opened Timestamp
  import opened Captions
  import opened Text

  /** One block: the 1-based index, the "start --> end" line, the text, and a blank line. */
  function Block(index: nat, c: Caption): string
    requires c.Timed?
  {
    Str(index) + "\n" + c.startTime + " --> " + c.endTime + "\n" + c.text + "\n\n"
  }

  /** The blocks of a caption list whose first block is numbered first. */
  function Blocks(cs: seq<Caption>, first: nat): string
    requires AllTimed(cs)
    decreases |cs|
  {
    if cs == [] then "" else Block(first, cs[0]) + Blocks(cs[1..], first + 1)
  }

  /** The whole file: blocks numbered from 1. */
  function Srt(cs: seq<Caption>): string
    requires AllTimed(cs)
  {
    Blocks(cs, 1)
  }

  /** One more caption at the end of the list adds one block at the end of the text, numbered
      one past the blocks already there. */
  lemma {:induction false} BlocksAppend(cs: seq<Caption>, c: Caption, first: nat)
    requires AllTimed(cs) && c.Timed?
    ensures AllTimed(cs + [c])
    ensures Blocks(cs + [c], first) == Blocks(cs, first) + Block(first + |cs|, c)
    decreases |cs|
  {
    if cs == [] {
      assert [c][1..] == [];
    } else {
      BlocksAppend(cs[1..], c, first + 1);
      BlocksAppendStep(cs, c, first);
    }
  }

  /** The inductive step of BlocksAppend: the first block stays in front. */
  lemma BlocksAppendStep(cs: seq<Caption>, c: Caption, first: nat)
    requires AllTimed(cs) && c.Timed? && cs != []
    requires AllTimed(cs[1..] + [c])
    requires Blocks(cs[1..] + [c], first + 1) == Blocks(cs[1..], first + 1) + Block(first + |cs|, c)
    ensures AllTimed(cs + [c])
    ensures Blocks(cs + [c], first) == Blocks(cs, first) + Block(first + |cs|, c)
  {
    assert (cs + [c])[0] == cs[0];
    assert (cs + [c])[1..] == cs[1..] + [c];
  }

  /** The three appends of one loop turn add one block. */
  lemma BlockAppended(before: string, number: string, start: string, end: string, text: string)
    ensures before + number + "\n" + start + " --> " + end + "\n" + text + "\n\n"
         == before + (number + "\n" + start + " --> " + end + "\n" + text + "\n\n")
  {
  }

  /** generate_srt: the text accumulated block by block over the list, numbering from 1. */
  method GenerateSrt(captions: seq<Caption>) returns (srt: string)
    requires AllTimed(captions)
    ensures srt == Srt(captions)
    ensures captions == [] ==> srt == ""
  {
    srt := "";
    var idx := 1;
    while idx <= |captions|
      invariant 1 <= idx <= |captions| + 1
      invariant srt == Srt(captions[..idx - 1])
    {
      var caption := captions[idx - 1];
      ghost var before := srt;
      srt := srt + Str(idx) + "\n";
      srt := srt + caption.startTime + " --> " + caption.endTime + "\n";
      srt := srt + caption.text + "\n\n";
      BlockAppended(before, Str(idx), caption.startTime, caption.endTime, caption.text);
      BlocksAppend(captions[..idx - 1], caption, 1);
      assert captions[..idx] == captions[..idx - 1] + [caption];
      idx := idx + 1;
    }
    assert captions[..idx - 1] == captions;
  }

  // ---------------------------------------------------------------------------------------
  // Reading the layout back

  /** The text before the first line break, and the text after it. */
  function SplitLine(s: string): (r: Option<(string, string)>)
    ensures r.Some? ==> '\n' !in r.value.0 && |s| == |r.value.0| + 1 + |r.value.1|
  {
    match IndexOf(s, '\n')
    case None => None
    case Some(i) => Some((s[..i], s[i + 1..]))
  }

  /** A timing line cut at its first space, which must open " --> ". */
  function SplitTiming(line: string): (r: Option<(string, string)>)
    ensures r.Some? ==> ' ' !in r.value.0
  {
    match IndexOf(line, ' ')
    case None => None
    case Some(i) => if i + 5 <= |line| && line[i..i + 5] == " --> " then Some((line[..i], line[i + 5..])) else None
  }

  /** One block numbered index at the front of s, and what follows it. */
  function ParseBlock(s: string, index: nat): (r: Option<(Caption, string)>)
    ensures r.Some? ==> r.value.0.Timed? && |r.value.1| < |s|
  {
    match SplitLine(s)
    case None => None
    case Some((number, afterNumber)) =>
      if number != Str(index) then None
      else match SplitLine(afterNumber)
        case None => None
        case Some((timing, afterTiming)) =>
          match SplitTiming(timing)
          case None => None
          case Some((start, end)) =>
            match SplitLine(afterTiming)
            case None => None
            case Some((text, afterText)) =>
              if afterText != [] && afterText[0] == '\n' then Some((Timed(text, start, end), afterText[1..]))
              else None
  }

  /** Blocks numbered from next up to the end of s. */
  function ParseBlocks(s: string, next: nat): (r: Option<seq<Caption>>)
    ensures r.Some? ==> AllTimed(r.value)
    decreases |s|
  {
    if s == [] then Some([])
    else match ParseBlock(s, next)
      case None => None
      case Some((c, rest)) =>
        match ParseBlocks(rest, next + 1)
        case None => None
        case Some(cs) => Some([c] + cs)
  }

  /** Reads an SRT text written as generate_srt writes it. */
  function ParseSrt(s: string): Option<seq<Caption>>
  {
    ParseBlocks(s, 1)
  }

  /** A caption the layout can carry: no line break in any field, and no space in the start
      time (the timing line is cut at its first space). */
  predicate Writable(c: Caption)
  {
    c.Timed? && '\n' !in c.text && '\n' !in c.startTime && ' ' !in c.startTime && '\n' !in c.endTime
  }

  lemma SplitLineOf(a: string, b: string)
    requires '\n' !in a
    ensures SplitLine(a + "\n" + b) == Some((a, b))
  {
    var s := a + "\n" + b;
    assert s[|a|] == '\n' && s[..|a|] == a;
    var i := IndexOf(s, '\n').value;
    assert s[i + 1..] == b;
  }

  lemma SplitTimingOf(a: string, b: string)
    requires ' ' !in a
    ensures SplitTiming(a + " --> " + b) == Some((a, b))
  {
    var s := a + " --> " + b;
    assert s[|a|] == ' ' && s[..|a|] == a;
    var i := IndexOf(s, ' ').value;
    assert s[i..i + 5] == " --> ";
    assert s[i + 5..] == b;
  }

  /** A block reads back as its caption, followed by the rest of the text. */
  lemma ParseBlockOf(index: nat, c: Caption, rest: string)
    requires Writable(c)
    ensures ParseBlock(Block(index, c) + rest, index) == Some((c, rest))
  {
    var number := Str(index);
    assert AllDigits(number) && !IsDigit('\n');
    var timing := c.startTime + " --> " + c.endTime;
    var s := Block(index, c) + rest;
    var afterText := "\n" + rest;
    var afterTiming := c.text + "\n" + afterText;
    var afterNumber := timing + "\n" + afterTiming;
    assert s == number + "\n" + afterNumber;
    SplitLineOf(number, afterNumber);
    assert '\n' !in timing;
    SplitLineOf(timing, afterTiming);
    SplitTimingOf(c.startTime, c.endTime);
    SplitLineOf(c.text, afterText);
    assert afterText[1..] == rest;
  }

  /** The reader is the inverse of the writer: the text generate_srt writes for writable
      captions reads back as exactly those captions, in order. */
  lemma {:induction false} ParseBlocksOf(cs: seq<Caption>, first: nat)
    requires forall i :: 0 <= i < |cs| ==> Writable(cs[i])
    ensures AllTimed(cs) && ParseBlocks(Blocks(cs, first), first) == Some(cs)
    decreases |cs|
  {
    if cs != [] {
      var rest := Blocks(cs[1..], first + 1);
      ParseBlocksOf(cs[1..], first + 1);
      ParseBlockOf(first, cs[0], rest);
      ParseBlocksStep(Block(first, cs[0]) + rest, first, cs[0], rest, cs[1..]);
      assert [cs[0]] + cs[1..] == cs;
    }
  }

  /** One block read, then the rest. */
  lemma ParseBlocksStep(s: string, next: nat, c: Caption, rest: string, cs: seq<Caption>)
    requires ParseBlock(s, next) == Some((c, rest)) && ParseBlocks(rest, next + 1) == Some(cs)
    ensures ParseBlocks(s, next) == Some([c] + cs)
  {
  }

  lemma SrtRoundTrip(cs: seq<Caption>)
    requires forall i :: 0 <= i < |cs| ==> Writable(cs[i])
    ensures AllTimed(cs) && ParseSrt(Srt(cs)) == Some(cs)
  {
    ParseBlocksOf(cs, 1);
  }

  /** Every record the conversion makes from a caption with a single-line text can be
      written, so its SRT reads back as the converted records. */
  lemma TimelineWritable(cs: seq<Caption>)
    requires AllRaw(cs)
    requires forall i :: 0 <= i < |cs| ==> '\n' !in cs[i].text
    ensures forall i :: 0 <= i < |Timeline(cs)| ==> Writable(Timeline(cs)[i])
    ensures ParseSrt(Srt(Timeline(cs))) == Some(Timeline(cs))
  {
    forall i | 0 <= i < |cs|
      ensures Writable(Timeline(cs)[i])
    {
      FormatTimeChars(cs[i].offset);
      FormatTimeChars(EndTicks(cs[i]));
    }
    SrtRoundTrip(Timeline(cs));
  }

  /** Two captions give blocks 1 and 2, in list order. */
  lemma TwoBlocks(a: Caption, b: Caption)
    requires a.Timed? && b.Timed?
    ensures Srt([a, b]) == Block(1, a) + Block(2, b)
  {
    BlocksAppend([a], b, 1);
    assert [a] + [b] == [a, b];
    assert [a][1..] == [];
  }
}
