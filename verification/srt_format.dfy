/** The SubRip text `SRTGenerator.generate` writes for a list of cues:
    four lines per cue, joined with line breaks. */
module SrtFormat {
  import opened Text
  import opened Numerals
  import opened Timecode
  import opened Seqs

  /** A subtitle cue: its 1-based index, its times in seconds and its
      words. */
  datatype Cue = Cue(index: nat, start: real, end: real, words: seq<string>)

  /** Line 44 and the `strip()` of line 47: the text line of a cue. */
  function CueText(c: Cue): string {
    Strip(Join(c.words, " "))
  }

  /** The four lines a cue renders as (line 47): its index, its time range,
      its text and a blank separator. */
  function CueLines(c: Cue): seq<string> {
    [Decimal(c.index), Format(c.start) + " --> " + Format(c.end), CueText(c), ""]
  }

  /** The lines of every cue, in order. */
  function Lines(cs: seq<Cue>): seq<string> {
    ConcatMap(cs, CueLines)
  }

  /** Line 52: the SubRip text of a list of cues. */
  function Render(cs: seq<Cue>): string {
    Join(Lines(cs), "\n")
  }
}

/** Line layout of the SubRip text. */
module SrtLayout {
  import opened Text
  import opened Numerals
  import opened Timecode
  import opened Seqs
  import opened SrtFormat

  /** Every cue renders as four lines. */
  lemma LinesCount(cs: seq<Cue>)
    ensures |Lines(cs)| == 4 * |cs|
  {
    ConcatMapLength(cs, CueLines, 4);
  }

  /** Line `m = 4j + k` is line `k` of cue `j`. */
  lemma LineAt(cs: seq<Cue>, j: int, k: int, m: int)
    requires 0 <= j < |cs| && 0 <= k < 4 && m == 4 * j + k
    ensures m < |Lines(cs)| && Lines(cs)[m] == CueLines(cs[j])[k]
  {
    ConcatMapAt(cs, CueLines, 4, j, k);
  }

  /** Line `4j` is the number of cue `j`. */
  lemma IndexLine(cs: seq<Cue>, j: int)
    requires 0 <= j < |cs|
    ensures 4 * j < |Lines(cs)| && Lines(cs)[4 * j] == Decimal(cs[j].index)
  {
    LineAt(cs, j, 0, 4 * j);
  }

  /** Line `4j + 1` is the time range of cue `j`. */
  lemma TimeLine(cs: seq<Cue>, j: int)
    requires 0 <= j < |cs|
    ensures 4 * j + 1 < |Lines(cs)|
    ensures Lines(cs)[4 * j + 1] == Format(cs[j].start) + " --> " + Format(cs[j].end)
  {
    LineAt(cs, j, 1, 4 * j + 1);
  }

  /** Line `4j + 2` is the text of cue `j`. */
  lemma TextLine(cs: seq<Cue>, j: int)
    requires 0 <= j < |cs|
    ensures 4 * j + 2 < |Lines(cs)| && Lines(cs)[4 * j + 2] == CueText(cs[j])
  {
    LineAt(cs, j, 2, 4 * j + 2);
  }

  /** Line `4j + 3` is the blank line closing cue `j`. */
  lemma BlankLine(cs: seq<Cue>, j: int)
    requires 0 <= j < |cs|
    ensures 4 * j + 3 < |Lines(cs)| && Lines(cs)[4 * j + 3] == ""
  {
    LineAt(cs, j, 3, 4 * j + 3);
  }

  /** Cue `j` occupies lines `4j` to `4j + 3`, in the fixed order index,
      time range, text, blank. */
  lemma LinesLayout(cs: seq<Cue>, j: int)
    requires 0 <= j < |cs|
    ensures 4 * j + 3 < |Lines(cs)|
    ensures Lines(cs)[4 * j] == Decimal(cs[j].index)
    ensures Lines(cs)[4 * j + 1] == Format(cs[j].start) + " --> " + Format(cs[j].end)
    ensures Lines(cs)[4 * j + 2] == CueText(cs[j])
    ensures Lines(cs)[4 * j + 3] == ""
  {
    IndexLine(cs, j);
    TimeLine(cs, j);
    TextLine(cs, j);
    BlankLine(cs, j);
  }

  /** A cue's text holds no line break when its words hold none. */
  lemma TextNoBreak(c: Cue)
    requires forall k :: 0 <= k < |c.words| ==> '\n' !in c.words[k]
    ensures '\n' !in CueText(c)
  {
    JoinAvoids(c.words, " ", '\n');
    StripWithin(Join(c.words, " "), '\n');
  }

  /** No time-range line holds a line break. */
  lemma RangeNoBreak(c: Cue)
    ensures '\n' !in Format(c.start) + " --> " + Format(c.end)
  {
    FormatNoBreak(c.start);
    FormatNoBreak(c.end);
  }

  /** No cue number holds a line break. */
  lemma IndexNoBreak(n: nat)
    ensures '\n' !in Decimal(n)
  {
    DecimalDigits(n);
  }

  /** A cue's four lines hold no line break when its words hold none. */
  lemma CueLinesNoBreak(c: Cue, r: int)
    requires 0 <= r < 4
    requires forall k :: 0 <= k < |c.words| ==> '\n' !in c.words[k]
    ensures '\n' !in CueLines(c)[r]
  {
    if r == 0 {
      assert '\n' !in CueLines(c)[0] by {
        IndexNoBreak(c.index);
      }
    } else if r == 1 {
      assert '\n' !in CueLines(c)[1] by {
        RangeNoBreak(c);
      }
    } else if r == 2 {
      assert '\n' !in CueLines(c)[2] by {
        TextNoBreak(c);
      }
    }
  }

  /** No rendered line holds a line break when no cue word holds one. */
  lemma LinesNoBreak(cs: seq<Cue>)
    requires forall j, k :: 0 <= j < |cs| && 0 <= k < |cs[j].words| ==> '\n' !in cs[j].words[k]
    ensures forall m :: 0 <= m < |Lines(cs)| ==> '\n' !in Lines(cs)[m]
  {
    forall m | 0 <= m < |Lines(cs)| ensures '\n' !in Lines(cs)[m] {
      var j, r := ConcatMapBlockOf(cs, CueLines, 4, m);
      CueLinesNoBreak(cs[j], r);
    }
  }

  /** With no line break inside any cue's words, the rendered text splits on
      `\n` back into exactly the four lines per cue. */
  lemma RenderSplits(cs: seq<Cue>)
    requires cs != []
    requires forall j, k :: 0 <= j < |cs| && 0 <= k < |cs[j].words| ==> '\n' !in cs[j].words[k]
    ensures SplitOn(Render(cs), '\n') == Lines(cs)
  {
    LinesNoBreak(cs);
    LinesCount(cs);
    assert "\n" == ['\n'];
    SplitOnJoin(Lines(cs), '\n');
  }
}
