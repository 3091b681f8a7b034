/**
 * The cue builder of generate_subtitles_from_audio: the transcript is split
 * into words, the words into chunks, and chunk k becomes the SubRip block
 * "k+1\nSTART --> END\nWORDS\n\n" whose window starts where the previous one
 * ended and lasts a fixed number of seconds.
 */
module Srt {
  import opened Common
  import opened Text
  import opened Decimal
  import opened Timestamp
  import opened Chunking

  /** One cue block: f"{i + 1}\n{format_time(start)} --> {format_time(end)}\n{' '.join(segment)}\n\n". */
  function CueText(index: nat, start: nat, end: nat, segment: seq<string>): (r: string)
  {
    NatToString(index) + "\n" + FormatTime(start) + " --> " + FormatTime(end) + "\n" + Join(segment) + "\n\n"
  }

  /** What a reader of the .srt file sees in one cue block. */
  datatype Cue = Cue(index: nat, start: Clock, end: Clock, words: seq<string>)

  /** The lines of `s`, cut at every newline (a string without one is one line). */
  function Lines(s: string): (r: seq<string>)
    ensures |r| >= 1
    decreases |s|
  {
    if s == [] then [""]
    else if s[0] == '\n' then [""] + Lines(s[1..])
    else
      var rest := Lines(s[1..]);
      [[s[0]] + rest[0]] + rest[1..]
  }

  /** Reads a cue block back: index line, "start --> end" line, text line, blank line. */
  function ParseCue(block: string): Option<Cue>
  {
    if |block| < 2 || block[|block| - 2..] != "\n\n" then None
    else ParseCueLines(Lines(block[..|block| - 2]))
  }

  function ParseCueLines(lines: seq<string>): Option<Cue>
  {
    if |lines| != 3 || |lines[0]| == 0 || !IsDigits(lines[0]) then None
    else
      match ParseTimeLine(lines[1])
      case Some((s, e)) => Some(Cue(ParseDecimal(lines[0]), s, e, Split(lines[2])))
      case None => None
  }

  /** "START --> END", tokens separated by whitespace. */
  function ParseTimeLine(line: string): Option<(Clock, Clock)>
  {
    var times := Split(line);
    if |times| != 3 || times[1] != "-->" then None
    else
      match (ParseTime(times[0]), ParseTime(times[2]))
      case (Some(s), Some(e)) => Some((s, e))
      case _ => None
  }

  /** When the window of cue k (counted from 0) starts: k windows of secondsPerCue have passed. */
  function WindowStart(k: nat, secondsPerCue: nat): (t: nat)
  {
    secondsPerCue * k
  }

  /** The next window starts one cue length later. */
  lemma WindowNext(k: nat, secondsPerCue: nat)
    ensures WindowStart(k + 1, secondsPerCue) == WindowStart(k, secondsPerCue) + secondsPerCue
  {
    assert secondsPerCue * (k + 1) == secondsPerCue * k + secondsPerCue;
  }

  /**
   * The cues for a list of chunks: the cues of all chunks but the last,
   * followed by the cue of the last chunk n - 1, which has the 1-based index
   * n and runs from (n - 1) * secondsPerCue to n * secondsPerCue.
   */
  function CueList(segments: seq<seq<string>>, secondsPerCue: nat): (r: seq<string>)
    ensures |r| == |segments|
    decreases |segments|
  {
    if segments == [] then []
    else
      var n := |segments|;
      CueList(segments[..n - 1], secondsPerCue)
        + [CueText(n, WindowStart(n - 1, secondsPerCue), WindowStart(n, secondsPerCue), segments[n - 1])]
  }

  /** What generate_subtitles_from_audio returns for a recognised transcript. */
  function Subtitles(text: string, wordsPerCue: nat, secondsPerCue: nat): (r: seq<string>)
    requires wordsPerCue > 0
  {
    CueList(Chunks(Split(text), wordsPerCue), secondsPerCue)
  }

  /**
   * Cue k of the list, in closed form: the block with index k + 1, the
   * window from k * secondsPerCue to (k + 1) * secondsPerCue, and chunk k.
   */
  lemma {:induction false} CueListAt(segments: seq<seq<string>>, secondsPerCue: nat, k: nat)
    requires k < |segments|
    ensures CueList(segments, secondsPerCue)[k]
         == CueText(k + 1, WindowStart(k, secondsPerCue), WindowStart(k + 1, secondsPerCue), segments[k])
    decreases |segments|
  {
    var n := |segments|;
    if k < n - 1 {
      CueListAt(segments[..n - 1], secondsPerCue, k);
      assert segments[..n - 1][k] == segments[k];
    } else {
      assert n - 1 == k;
    }
  }

  /** Cue blocks built from equal times are equal. */
  lemma SameCue(index: nat, start: nat, start': nat, end: nat, end': nat, segment: seq<string>)
    requires start == start' && end == end'
    ensures CueText(index, start, end, segment) == CueText(index, start', end', segment)
  {
  }

  /** The cues of the first i + 1 chunks are the cues of the first i, then the cue of chunk i. */
  lemma CueListSnoc(segments: seq<seq<string>>, secondsPerCue: nat, i: nat)
    requires i < |segments|
    ensures CueList(segments[..i + 1], secondsPerCue)
         == CueList(segments[..i], secondsPerCue)
            + [CueText(i + 1, WindowStart(i, secondsPerCue), WindowStart(i + 1, secondsPerCue), segments[i])]
  {
    assert segments[..i + 1][..i] == segments[..i];
    assert segments[..i + 1][i] == segments[i];
  }

  /**
   * One turn of the cue loop: appending the cue of chunk i, with the window
   * starting at the accumulated start time, gives the cues of the first
   * i + 1 chunks, and the start time advances to the next window.
   */
  lemma EmitStep(segments: seq<seq<string>>, secondsPerCue: nat, i: nat, startTime: nat,
                 done: seq<string>, cue: string)
    requires i < |segments| && startTime == WindowStart(i, secondsPerCue)
    requires done == CueList(segments[..i], secondsPerCue)
    requires cue == CueText(i + 1, startTime, startTime + secondsPerCue, segments[i])
    ensures startTime + secondsPerCue == WindowStart(i + 1, secondsPerCue)
    ensures done + [cue] == CueList(segments[..i + 1], secondsPerCue)
  {
    WindowNext(i, secondsPerCue);
    assert cue == CueText(i + 1, WindowStart(i, secondsPerCue), WindowStart(i + 1, secondsPerCue), segments[i]) by {
      SameCue(i + 1, startTime, WindowStart(i, secondsPerCue), startTime + secondsPerCue,
              WindowStart(i + 1, secondsPerCue), segments[i]);
    }
    CueListSnoc(segments, secondsPerCue, i);
  }

  /**
   * The loop of generate_subtitles_from_audio: walks the chunks in order,
   * appends one cue per chunk and moves the start-time accumulator forward
   * by secondsPerCue after each one.
   */
  method EmitCues(segments: seq<seq<string>>, secondsPerCue: nat) returns (subtitles: seq<string>)
    ensures subtitles == CueList(segments, secondsPerCue)
  {
    subtitles := [];
    var startTime := 0;
    var i := 0;
    while i < |segments|
      invariant 0 <= i <= |segments|
      invariant startTime == WindowStart(i, secondsPerCue)
      invariant subtitles == CueList(segments[..i], secondsPerCue)
    {
      var endTime := startTime + secondsPerCue;
      var subtitle := CueText(i + 1, startTime, endTime, segments[i]);
      EmitStep(segments, secondsPerCue, i, startTime, subtitles, subtitle);
      subtitles := subtitles + [subtitle];
      startTime := endTime;
      i := i + 1;
    }
    assert segments[..i] == segments;
  }

  /**
   * generate_subtitles_from_audio after recognition: split the transcript
   * into words, cut the words into chunks, and emit one cue per chunk.
   */
  method BuildCues(text: string, wordsPerCue: nat, secondsPerCue: nat) returns (subtitles: seq<string>)
    requires wordsPerCue > 0
    ensures subtitles == Subtitles(text, wordsPerCue, secondsPerCue)
  {
    var words := Split(text);
    var segments := Chunks(words, wordsPerCue);
    subtitles := EmitCues(segments, secondsPerCue);
  }

  // ---------------------------------------------------------------------
  // Reading a cue back

  lemma {:induction false} LinesOfLine(a: string)
    requires forall i :: 0 <= i < |a| ==> a[i] != '\n'
    ensures Lines(a) == [a]
    decreases |a|
  {
    if a != [] {
      LinesOfLine(a[1..]);
      assert a == [a[0]] + a[1..];
    }
  }

  lemma {:induction false} LinesAppend(a: string, b: string)
    requires forall i :: 0 <= i < |a| ==> a[i] != '\n'
    ensures Lines(a + "\n" + b) == [a] + Lines(b)
    decreases |a|
  {
    var s := a + "\n" + b;
    if a == [] {
      assert s == "\n" + b;
      assert s[1..] == b;
    } else {
      assert s[1..] == a[1..] + "\n" + b;
      LinesAppend(a[1..], b);
      assert a == [a[0]] + a[1..];
    }
  }

  predicate NoSpace(s: string)
  {
    forall i :: 0 <= i < |s| ==> !IsSpace(s[i])
  }

  lemma DigitsNoSpace(s: string)
    requires IsDigits(s)
    ensures NoSpace(s)
  {
  }

  lemma NoSpaceAppend(a: string, b: string)
    requires NoSpace(a) && NoSpace(b)
    ensures NoSpace(a + b)
  {
    forall i | 0 <= i < |a + b|
      ensures !IsSpace((a + b)[i])
    {
      if i >= |a| {
        assert (a + b)[i] == b[i - |a|];
      }
    }
  }

  /** A timestamp is a single whitespace-free token. */
  lemma FormatTimeIsWord(total: nat)
    ensures IsWord(FormatTime(total))
  {
    var c := Decompose(total);
    var h, m, s, ms := PadInt(c.hours, 2), PadInt(c.minutes, 2), PadInt(c.seconds, 2), PadInt(c.millis, 3);
    PadIntShape(c.hours, 2);
    PadIntShape(c.minutes, 2);
    PadIntShape(c.seconds, 2);
    PadIntShape(c.millis, 3);
    DigitsNoSpace(h);
    DigitsNoSpace(m);
    DigitsNoSpace(s);
    DigitsNoSpace(ms);
    NoSpaceAppend(h, ":");
    NoSpaceAppend(h + ":", m);
    NoSpaceAppend(h + ":" + m, ":");
    NoSpaceAppend(h + ":" + m + ":", s);
    NoSpaceAppend(h + ":" + m + ":" + s, ",");
    NoSpaceAppend(h + ":" + m + ":" + s + ",", ms);
    FormatTimeWidth(total);
  }

  /** The text line of a cue has no line break, so it cannot split the block. */
  lemma {:induction false} JoinHasNoNewline(ws: seq<string>)
    requires AllWords(ws)
    ensures forall i :: 0 <= i < |Join(ws)| ==> Join(ws)[i] != '\n'
    decreases |ws|
  {
    if |ws| > 1 {
      JoinHasNoNewline(ws[1..]);
      var w, rest := ws[0], " " + Join(ws[1..]);
      assert Join(ws) == w + rest;
      forall i | 0 <= i < |w + rest|
        ensures (w + rest)[i] != '\n'
      {
        if i >= |w| + 1 {
          assert (w + rest)[i] == Join(ws[1..])[i - |w| - 1];
        }
      }
    }
  }

  lemma NoSpaceNoNewline(s: string)
    requires NoSpace(s)
    ensures forall i :: 0 <= i < |s| ==> s[i] != '\n'
  {
  }

  /** The time line of two stamps splits into start stamp, arrow and end stamp, and holds no newline. */
  lemma TimeLineTokens(a: string, b: string)
    requires IsWord(a) && IsWord(b)
    ensures Split(a + " --> " + b) == [a, "-->", b]
    ensures forall i :: 0 <= i < |a + " --> " + b| ==> (a + " --> " + b)[i] != '\n'
  {
    assert Join([b]) == b;
    assert ["-->", b][1..] == [b];
    assert Join(["-->", b]) == "-->" + " " + b;
    assert [a, "-->", b][1..] == ["-->", b];
    assert Join([a, "-->", b]) == a + " --> " + b;
    assert IsWord("-->");
    assert AllWords([a, "-->", b]);
    JoinHasNoNewline([a, "-->", b]);
    SplitJoin([a, "-->", b]);
  }

  /** A cue block minus its closing blank line is exactly three lines. */
  lemma CueLines(idx: string, timeLine: string, text: string)
    requires forall i :: 0 <= i < |idx| ==> idx[i] != '\n'
    requires forall i :: 0 <= i < |timeLine| ==> timeLine[i] != '\n'
    requires forall i :: 0 <= i < |text| ==> text[i] != '\n'
    ensures Lines(idx + "\n" + timeLine + "\n" + text) == [idx, timeLine, text]
  {
    assert idx + "\n" + timeLine + "\n" + text == idx + "\n" + (timeLine + "\n" + text);
    LinesAppend(idx, timeLine + "\n" + text);
    LinesAppend(timeLine, text);
    LinesOfLine(text);
  }

  /** Reading a well-formed block: numeral line, two parseable stamps, a one-line text. */
  lemma ParseCueBlock(idx: string, a: string, b: string, text: string, ca: Clock, cb: Clock)
    requires |idx| > 0 && IsDigits(idx)
    requires IsWord(a) && IsWord(b) && ParseTime(a) == Some(ca) && ParseTime(b) == Some(cb)
    requires forall i :: 0 <= i < |text| ==> text[i] != '\n'
    ensures ParseCue(idx + "\n" + a + " --> " + b + "\n" + text + "\n\n")
         == Some(Cue(ParseDecimal(idx), ca, cb, Split(text)))
  {
    var timeLine := a + " --> " + b;
    var body := idx + "\n" + timeLine + "\n" + text;
    var block := idx + "\n" + a + " --> " + b + "\n" + text + "\n\n";
    assert block == body + "\n\n";
    assert block[..|block| - 2] == body;
    assert block[|block| - 2..] == "\n\n";
    DigitsNoSpace(idx);
    NoSpaceNoNewline(idx);
    TimeLineTokens(a, b);
    assert ParseTimeLine(timeLine) == Some((ca, cb));
    CueLines(idx, timeLine, text);
    assert ParseCueLines([idx, timeLine, text]) == Some(Cue(ParseDecimal(idx), ca, cb, Split(text)));
  }

  /**
   * A cue block carries everything it was built from: reading it back yields
   * its index, the clock readings of its start and end, and its words.
   */
  lemma CueRoundTrip(index: nat, start: nat, end: nat, segment: seq<string>)
    requires AllWords(segment)
    ensures ParseCue(CueText(index, start, end, segment)) == Some(Cue(index, Decompose(start), Decompose(end), segment))
  {
    FormatTimeIsWord(start);
    FormatTimeIsWord(end);
    FormatTimeRoundTrip(start);
    FormatTimeRoundTrip(end);
    JoinHasNoNewline(segment);
    ParseNatToString(index);
    ParseCueBlock(NatToString(index), FormatTime(start), FormatTime(end), Join(segment), Decompose(start), Decompose(end));
    SplitJoin(segment);
  }

  // ---------------------------------------------------------------------
  // Properties of the whole subtitles list

  /**
   * There are ceil(words / wordsPerCue) cues, and none at all exactly when
   * the transcript is empty or whitespace only.
   */
  lemma SubtitlesCount(text: string, wordsPerCue: nat, secondsPerCue: nat)
    requires wordsPerCue > 0
    ensures |Subtitles(text, wordsPerCue, secondsPerCue)| == (|Split(text)| + wordsPerCue - 1) / wordsPerCue
    ensures Subtitles(text, wordsPerCue, secondsPerCue) == [] <==> forall i :: 0 <= i < |text| ==> IsSpace(text[i])
  {
    var chunks := Chunks(Split(text), wordsPerCue);
    ChunksCount(Split(text), wordsPerCue);
    SplitEmpty(text);
    assert |Subtitles(text, wordsPerCue, secondsPerCue)| == |chunks|;
  }

  /**
   * Cue k reads back as index k + 1, the window [k * secondsPerCue,
   * (k + 1) * secondsPerCue] whatever the number of words in its chunk,
   * and exactly the words of chunk k.
   */
  lemma SubtitlesDecode(text: string, wordsPerCue: nat, secondsPerCue: nat, k: nat)
    requires wordsPerCue > 0 && k < |Subtitles(text, wordsPerCue, secondsPerCue)|
    ensures ParseCue(Subtitles(text, wordsPerCue, secondsPerCue)[k])
         == Some(Cue(k + 1, Decompose(WindowStart(k, secondsPerCue)), Decompose(WindowStart(k + 1, secondsPerCue)),
                     Chunks(Split(text), wordsPerCue)[k]))
  {
    ChunkOfWords(Split(text), wordsPerCue, k);
    CueListDecode(Chunks(Split(text), wordsPerCue), secondsPerCue, k);
  }

  /** Cue k of a cue list reads back as index k + 1, window k, and chunk k. */
  lemma CueListDecode(segments: seq<seq<string>>, secondsPerCue: nat, k: nat)
    requires k < |segments| && AllWords(segments[k])
    ensures ParseCue(CueList(segments, secondsPerCue)[k])
         == Some(Cue(k + 1, Decompose(WindowStart(k, secondsPerCue)), Decompose(WindowStart(k + 1, secondsPerCue)), segments[k]))
  {
    var start, end := WindowStart(k, secondsPerCue), WindowStart(k + 1, secondsPerCue);
    CueListAt(segments, secondsPerCue, k);
    assert CueList(segments, secondsPerCue)[k] == CueText(k + 1, start, end, segments[k]);
    CueRoundTrip(k + 1, start, end, segments[k]);
  }

  /** A chunk of words holds only words. */
  lemma ChunkOfWords(words: seq<string>, size: nat, k: nat)
    requires size > 0 && AllWords(words) && k < |Chunks(words, size)|
    ensures AllWords(Chunks(words, size)[k])
  {
    ChunkAt(words, size, k);
  }

  /** The first cue starts at 00:00:00,000. */
  lemma SubtitlesStartAtZero(text: string, wordsPerCue: nat, secondsPerCue: nat)
    requires wordsPerCue > 0 && 0 < |Subtitles(text, wordsPerCue, secondsPerCue)|
    ensures ParseCue(Subtitles(text, wordsPerCue, secondsPerCue)[0]).Some?
    ensures Seconds(ParseCue(Subtitles(text, wordsPerCue, secondsPerCue)[0]).value.start) == 0
  {
    SubtitlesDecode(text, wordsPerCue, secondsPerCue, 0);
    DecomposeSound(WindowStart(0, secondsPerCue));
  }

  /** The windows tile the time line: cue k ends at the instant cue k + 1 starts. */
  lemma SubtitlesContiguous(text: string, wordsPerCue: nat, secondsPerCue: nat, k: nat)
    requires wordsPerCue > 0 && k + 1 < |Subtitles(text, wordsPerCue, secondsPerCue)|
    ensures ParseCue(Subtitles(text, wordsPerCue, secondsPerCue)[k]).Some?
    ensures ParseCue(Subtitles(text, wordsPerCue, secondsPerCue)[k + 1]).Some?
    ensures ParseCue(Subtitles(text, wordsPerCue, secondsPerCue)[k]).value.end
         == ParseCue(Subtitles(text, wordsPerCue, secondsPerCue)[k + 1]).value.start
  {
    SubtitlesDecode(text, wordsPerCue, secondsPerCue, k);
    SubtitlesDecode(text, wordsPerCue, secondsPerCue, k + 1);
  }

  /** The words a reader finds in a list of cue blocks, cue after cue. */
  function DecodedWords(blocks: seq<string>): seq<string>
  {
    Concat(seq(|blocks|, k requires 0 <= k < |blocks| =>
      match ParseCue(blocks[k]) case Some(c) => c.words case None => []))
  }

  /**
   * Reading the words back out of the subtitles, cue after cue, gives
   * exactly the tokens of the transcript: none lost, duplicated or reordered.
   */
  lemma SubtitlesKeepWords(text: string, wordsPerCue: nat, secondsPerCue: nat)
    requires wordsPerCue > 0
    ensures DecodedWords(Subtitles(text, wordsPerCue, secondsPerCue)) == Split(text)
  {
    var subs := Subtitles(text, wordsPerCue, secondsPerCue);
    var chunks := Chunks(Split(text), wordsPerCue);
    var decoded := seq(|subs|, k requires 0 <= k < |subs| =>
      match ParseCue(subs[k]) case Some(c) => c.words case None => []);
    forall k | 0 <= k < |subs|
      ensures decoded[k] == chunks[k]
    {
      SubtitlesDecode(text, wordsPerCue, secondsPerCue, k);
    }
    assert decoded == chunks;
    ChunksConcat(Split(text), wordsPerCue);
  }
}
