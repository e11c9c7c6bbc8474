/** `SRTGenerator.generate`: greedy packing of word records into subtitle
    cues, their SubRip rendering, and the output file name. */
module SrtGenerator {
  import opened Results
  import opened Text
  import opened Numerals
  import opened Timecode
  import opened Constants
  import opened Artifacts
  import opened Seqs
  import opened SrtFormat
  import opened SrtLayout

  /** A word that takes part in packing: the stripped word of the raw entry
      at position `pos`, with that entry's times. */
  datatype Token = Token(pos: nat, word: string, start: real, end: real)

  /** The raw list with every word stripped (line 26 of the loop, done
      up front): the times are kept as they are. */
  function StripWords(ws: seq<WordRecord>): (cs: seq<WordRecord>)
    ensures |cs| == |ws|
    ensures forall i :: 0 <= i < |ws| ==>
      cs[i] == WordRecord(Strip(ws[i].word), ws[i].start, ws[i].end)
  {
    if ws == [] then []
    else [WordRecord(Strip(ws[0].word), ws[0].start, ws[0].end)] + StripWords(ws[1..])
  }

  /** `t` is the token the stripped list `cs` yields at `t.pos`. */
  predicate TokenOf(cs: seq<WordRecord>, t: Token) {
    && t.pos < |cs|
    && t.word == cs[t.pos].word
    && t.word != []
    && t.start == cs[t.pos].start
    && t.end == cs[t.pos].end
  }

  /** The tokens of the stripped entries from position `i` on: entries
      whose word is empty are skipped. */
  function KeptFrom(cs: seq<WordRecord>, i: nat): seq<Token>
    requires i <= |cs|
    decreases |cs| - i
  {
    if i == |cs| then []
    else if cs[i].word == [] then KeptFrom(cs, i + 1)
    else [Token(i, cs[i].word, cs[i].start, cs[i].end)] + KeptFrom(cs, i + 1)
  }

  /** The words that take part in packing, with their raw positions. */
  function Kept(ws: seq<WordRecord>): seq<Token> {
    KeptFrom(StripWords(ws), 0)
  }

  /** Every token comes from a non-blank entry at or after `i`. */
  lemma {:induction false} KeptFromSound(cs: seq<WordRecord>, i: nat)
    requires i <= |cs|
    ensures forall a :: 0 <= a < |KeptFrom(cs, i)| ==>
      TokenOf(cs, KeptFrom(cs, i)[a]) && i <= KeptFrom(cs, i)[a].pos
    decreases |cs| - i
  {
    if i < |cs| {
      KeptFromSound(cs, i + 1);
      var rest := KeptFrom(cs, i + 1);
      if cs[i].word != [] {
        var k := KeptFrom(cs, i);
        assert k == [Token(i, cs[i].word, cs[i].start, cs[i].end)] + rest;
        forall a | 0 <= a < |k| ensures TokenOf(cs, k[a]) && i <= k[a].pos {
          if a > 0 {
            assert k[a] == rest[a - 1];
          }
        }
      } else {
        assert KeptFrom(cs, i) == rest;
      }
    }
  }

  /** Tokens keep the order of their entries, each entry at most once. */
  lemma {:induction false} KeptFromIncreasing(cs: seq<WordRecord>, i: nat)
    requires i <= |cs|
    ensures forall a, b :: 0 <= a < b < |KeptFrom(cs, i)| ==>
      KeptFrom(cs, i)[a].pos < KeptFrom(cs, i)[b].pos
    decreases |cs| - i
  {
    if i < |cs| {
      KeptFromIncreasing(cs, i + 1);
      KeptFromSound(cs, i + 1);
      var rest := KeptFrom(cs, i + 1);
      if cs[i].word != [] {
        var k := KeptFrom(cs, i);
        assert k == [Token(i, cs[i].word, cs[i].start, cs[i].end)] + rest;
        forall a | 0 <= a < |k| ensures TokenOf(cs, k[a]) && i <= k[a].pos {
          if a > 0 {
            assert k[a] == rest[a - 1];
          }
        }
      } else {
        assert KeptFrom(cs, i) == rest;
      }
    }
  }

  /** The non-blank entry at `j`, at or after `i`, yields a token. */
  lemma {:induction false} KeptFromHas(cs: seq<WordRecord>, i: nat, j: int)
    requires i <= j < |cs| && cs[j].word != []
    ensures exists a :: 0 <= a < |KeptFrom(cs, i)| && KeptFrom(cs, i)[a].pos == j
    decreases j - i
  {
    var k := KeptFrom(cs, i);
    if j == i {
      assert k[0].pos == j;
    } else {
      KeptFromHas(cs, i + 1, j);
      var rest := KeptFrom(cs, i + 1);
      var a :| 0 <= a < |rest| && rest[a].pos == j;
      if cs[i].word == [] {
        assert k[a].pos == j;
      } else {
        assert k == [Token(i, cs[i].word, cs[i].start, cs[i].end)] + rest;
        assert k[a + 1].pos == j;
      }
    }
  }

  /** Packing sees every raw entry whose stripped word is not empty, once
      each and in raw order, and no other: a blank entry never reaches a
      cue. */
  lemma KeptTokens(ws: seq<WordRecord>)
    ensures forall a :: 0 <= a < |Kept(ws)| ==>
      && Kept(ws)[a].pos < |ws|
      && Kept(ws)[a].word == Strip(ws[Kept(ws)[a].pos].word) && Kept(ws)[a].word != []
      && Kept(ws)[a].start == ws[Kept(ws)[a].pos].start
      && Kept(ws)[a].end == ws[Kept(ws)[a].pos].end
    ensures forall a, b :: 0 <= a < b < |Kept(ws)| ==> Kept(ws)[a].pos < Kept(ws)[b].pos
    ensures forall j :: 0 <= j < |ws| && Strip(ws[j].word) != [] ==>
      exists a :: 0 <= a < |Kept(ws)| && Kept(ws)[a].pos == j
  {
    var cs := StripWords(ws);
    KeptFromSound(cs, 0);
    KeptFromIncreasing(cs, 0);
    var k := Kept(ws);
    forall a | 0 <= a < |k|
      ensures k[a].pos < |ws| && k[a].word == Strip(ws[k[a].pos].word)
    {
      assert TokenOf(cs, k[a]);
    }
    forall j | 0 <= j < |ws| && Strip(ws[j].word) != []
      ensures exists a :: 0 <= a < |k| && k[a].pos == j
    {
      assert cs[j].word != [];
      KeptFromHas(cs, 0, j);
    }
  }

  /** When the last entry is not blank, it is the last token. */
  lemma {:induction false} KeptEndsWithLast(cs: seq<WordRecord>, i: nat)
    requires i < |cs| && cs[|cs| - 1].word != []
    ensures var k := KeptFrom(cs, i); k != [] && k[|k| - 1].pos == |cs| - 1
    decreases |cs| - i
  {
    if i + 1 < |cs| {
      KeptEndsWithLast(cs, i + 1);
      var rest := KeptFrom(cs, i + 1);
      if cs[i].word != [] {
        var k := KeptFrom(cs, i);
        assert k == [Token(i, cs[i].word, cs[i].start, cs[i].end)] + rest;
        assert k[|k| - 1] == rest[|rest| - 1];
      }
    }
  }

  /** The character count the loop keeps for a buffer: `len(word) + 1` per
      word. */
  function Width(g: seq<Token>): nat {
    if g == [] then 0 else |g[0].word| + 1 + Width(g[1..])
  }

  /** Appending a word adds its length plus one to the count. */
  lemma {:induction false} WidthAppend(g: seq<Token>, t: Token)
    ensures Width(g + [t]) == Width(g) + |t.word| + 1
    decreases |g|
  {
    if g == [] {
      assert ([] + [t])[1..] == [];
    } else {
      assert (g + [t])[1..] == g[1..] + [t];
      WidthAppend(g[1..], t);
    }
  }

  /** The break test of the loop, asked when `g`'s last token has just been
      appended to the buffer `g`; `n` is the length of the raw list. */
  predicate Closes(g: seq<Token>, n: nat) {
    && g != []
    && (|| Width(g) >= MaxCharsPerLine
        || g[|g| - 1].pos == n - 1
        || g[|g| - 1].end - g[0].start >= MaxDurationSec)
  }

  /** A cue's words: the break fires at its last token and at no earlier one. */
  predicate GroupOk(g: seq<Token>, n: nat) {
    && Closes(g, n)
    && (forall k :: 1 <= k < |g| ==> !Closes(g[..k], n))
  }

  /** Words left buffered: the break never fired while they were appended. */
  predicate PendingOk(p: seq<Token>, n: nat) {
    forall k :: 1 <= k <= |p| ==> !Closes(p[..k], n)
  }

  /** A declarative account of the packing, independent of the loop: the
      tokens are cut into consecutive cues, each ending exactly where the
      break test first fires, followed by the words still buffered. */
  predicate IsSegmentation(toks: seq<Token>, n: nat, gs: seq<seq<Token>>, p: seq<Token>) {
    && Concat(gs) + p == toks
    && (forall j :: 0 <= j < |gs| ==> GroupOk(gs[j], n))
    && PendingOk(p, n)
  }

  /** The cues emitted by the loop, and the words still buffered when it
      ends (which the source never emits). */
  datatype Packing = Packing(groups: seq<seq<Token>>, pending: seq<Token>)

  /** The loop over the stripped list from position `i`, with buffer
      `buf` and running character count `chars`. */
  function Scan(cs: seq<WordRecord>, i: nat, buf: seq<Token>, chars: int): Packing
    requires i <= |cs|
    decreases |cs| - i
  {
    if i == |cs| then Packing([], buf)
    else if cs[i].word == [] then Scan(cs, i + 1, buf, chars)
    else
      var b := buf + [Token(i, cs[i].word, cs[i].start, cs[i].end)];
      var c := chars + |cs[i].word| + 1;
      if c >= MaxCharsPerLine || i == |cs| - 1 || cs[i].end - b[0].start >= MaxDurationSec then
        var rest := Scan(cs, i + 1, [], 0);
        Packing([b] + rest.groups, rest.pending)
      else
        Scan(cs, i + 1, b, c)
  }

  /** The packing of a whole word-timestamp list. */
  function Segment(ws: seq<WordRecord>): Packing {
    Scan(StripWords(ws), 0, [], 0)
  }

  /** Appending a token to an open buffer: the result closes exactly when
      the loop's break test fires. */
  lemma AppendToken(buf: seq<Token>, t: Token, n: nat)
    requires PendingOk(buf, n)
    ensures var b := buf + [t];
      && Width(b) == Width(buf) + |t.word| + 1
      && (Closes(b, n) <==>
            (|| Width(buf) + |t.word| + 1 >= MaxCharsPerLine
             || t.pos == n - 1
             || t.end - b[0].start >= MaxDurationSec))
      && (forall k :: 1 <= k < |b| ==> !Closes(b[..k], n))
  {
    var b := buf + [t];
    WidthAppend(buf, t);
    forall k | 1 <= k < |b| ensures !Closes(b[..k], n) {
      assert b[..k] == buf[..k];
    }
  }

  /** The loop's invariant: with an open buffer whose count is its width,
      the rest of the loop completes a segmentation of the buffer followed by
      the remaining tokens. */
  lemma {:induction false} ScanSegments(cs: seq<WordRecord>, i: nat, buf: seq<Token>, chars: int)
    requires i <= |cs|
    requires chars == Width(buf) && PendingOk(buf, |cs|)
    ensures var r := Scan(cs, i, buf, chars);
      IsSegmentation(buf + KeptFrom(cs, i), |cs|, r.groups, r.pending)
    decreases |cs| - i
  {
    var n := |cs|;
    if i == n {
      assert buf + KeptFrom(cs, i) == buf;
      assert Concat<Token>([]) == [];
    } else if cs[i].word == [] {
      ScanSegments(cs, i + 1, buf, chars);
    } else {
      var t := Token(i, cs[i].word, cs[i].start, cs[i].end);
      var b := buf + [t];
      var c := chars + |cs[i].word| + 1;
      AppendToken(buf, t, n);
      assert KeptFrom(cs, i) == [t] + KeptFrom(cs, i + 1);
      AppendAssoc(buf, [t], KeptFrom(cs, i + 1));
      if c >= MaxCharsPerLine || i == n - 1 || cs[i].end - b[0].start >= MaxDurationSec {
        BreakStep(cs, i, b);
      } else {
        assert b[..|b|] == b;
        assert PendingOk(b, n);
        ScanSegments(cs, i + 1, b, c);
      }
    }
  }

  /** The step of the loop that emits the buffer `b` as a cue. */
  lemma {:induction false} BreakStep(cs: seq<WordRecord>, i: nat, b: seq<Token>)
    requires i < |cs| && GroupOk(b, |cs|)
    ensures var rest := Scan(cs, i + 1, [], 0);
      IsSegmentation(b + KeptFrom(cs, i + 1), |cs|, [b] + rest.groups, rest.pending)
    decreases |cs| - i, 0
  {
    assert PendingOk([], |cs|);
    ScanSegments(cs, i + 1, [], 0);
    var rest := Scan(cs, i + 1, [], 0);
    assert [] + KeptFrom(cs, i + 1) == KeptFrom(cs, i + 1);
    ConsSegmentation(KeptFrom(cs, i + 1), |cs|, b, rest.groups, rest.pending);
  }

  /** A cue put in front of a segmentation extends it. */
  lemma ConsSegmentation(toks: seq<Token>, n: nat, g: seq<Token>, gs: seq<seq<Token>>, p: seq<Token>)
    requires GroupOk(g, n) && IsSegmentation(toks, n, gs, p)
    ensures IsSegmentation(g + toks, n, [g] + gs, p)
  {
    ConcatCons(g, gs);
    assert Concat([g] + gs) + p == g + (Concat(gs) + p);
    var hs := [g] + gs;
    assert forall j :: 1 <= j < |hs| ==> hs[j] == gs[j - 1];
  }

  /** The packing the loop computes is a segmentation of the kept tokens. */
  lemma SegmentIsSegmentation(ws: seq<WordRecord>)
    ensures IsSegmentation(Kept(ws), |ws|, Segment(ws).groups, Segment(ws).pending)
  {
    var cs := StripWords(ws);
    assert [] + KeptFrom(cs, 0) == Kept(ws);
    ScanSegments(cs, 0, [], 0);
  }

  /** A cue cannot end before the break test first fires on its words. */
  lemma ClosedPrefix(g: seq<Token>, h: seq<Token>, n: nat)
    requires GroupOk(g, n) && Closes(h, n)
    requires |h| <= |g| && g[..|h|] == h
    ensures |h| == |g|
  {
  }

  /** The buffered words never close, so no cue is a prefix of them. */
  lemma PendingHasNoCue(p: seq<Token>, h: seq<Token>, n: nat)
    requires PendingOk(p, n) && Closes(h, n)
    ensures |h| > |p| || p[..|h|] != h
  {
    if |h| <= |p| {
      assert !Closes(p[..|h|], n);
    }
  }

  /** A segmentation with at least one cue starts with that cue. */
  lemma {:induction false} SplitFirst(toks: seq<Token>, n: nat, gs: seq<seq<Token>>, p: seq<Token>)
    requires IsSegmentation(toks, n, gs, p) && gs != []
    ensures GroupOk(gs[0], n)
    ensures |gs[0]| <= |toks| && toks[..|gs[0]|] == gs[0]
    ensures IsSegmentation(toks[|gs[0]|..], n, gs[1..], p)
  {
    var g, r := gs[0], gs[1..];
    assert gs == [g] + r;
    ConcatCons(g, r);
    assert toks == g + (Concat(r) + p);
    assert forall j :: 0 <= j < |r| ==> r[j] == gs[j + 1];
  }

  /** Two segmentations of the same tokens agree on their first cue. */
  lemma FirstCueAgrees(toks: seq<Token>, n: nat,
      gs1: seq<seq<Token>>, p1: seq<Token>, gs2: seq<seq<Token>>, p2: seq<Token>)
    requires IsSegmentation(toks, n, gs1, p1) && gs1 != []
    requires IsSegmentation(toks, n, gs2, p2) && gs2 != []
    ensures gs1[0] == gs2[0]
  {
    SplitFirst(toks, n, gs1, p1);
    SplitFirst(toks, n, gs2, p2);
    var g1, g2 := gs1[0], gs2[0];
    if |g1| <= |g2| {
      assert g2[..|g1|] == g1;
      ClosedPrefix(g2, g1, n);
    } else {
      assert g1[..|g2|] == g2;
      ClosedPrefix(g1, g2, n);
    }
  }

  /** A segmentation without cues leaves every token buffered, and then no
      segmentation has a cue. */
  lemma NoCueFirst(toks: seq<Token>, n: nat,
      gs1: seq<seq<Token>>, p1: seq<Token>, gs2: seq<seq<Token>>, p2: seq<Token>)
    requires IsSegmentation(toks, n, gs1, p1) && gs1 == []
    requires IsSegmentation(toks, n, gs2, p2)
    ensures gs2 == []
  {
    assert p1 == toks;
    if gs2 != [] {
      SplitFirst(toks, n, gs2, p2);
      PendingHasNoCue(p1, gs2[0], n);
      assert false;
    }
  }

  /** There is only one segmentation of a token list: the declarative
      account fixes the cues completely. */
  lemma {:induction false} SegmentationUnique(toks: seq<Token>, n: nat,
      gs1: seq<seq<Token>>, p1: seq<Token>, gs2: seq<seq<Token>>, p2: seq<Token>)
    requires IsSegmentation(toks, n, gs1, p1)
    requires IsSegmentation(toks, n, gs2, p2)
    ensures gs1 == gs2 && p1 == p2
    decreases |gs1|
  {
    if gs1 == [] {
      NoCueFirst(toks, n, gs1, p1, gs2, p2);
      assert p1 == toks == p2;
    } else if gs2 == [] {
      NoCueFirst(toks, n, gs2, p2, gs1, p1);
      assert false;
    } else {
      FirstCueAgrees(toks, n, gs1, p1, gs2, p2);
      SplitFirst(toks, n, gs1, p1);
      SplitFirst(toks, n, gs2, p2);
      var m := |gs1[0]|;
      SegmentationUnique(toks[m..], n, gs1[1..], p1, gs2[1..], p2);
      assert gs1 == [gs1[0]] + gs1[1..];
      assert gs2 == [gs2[0]] + gs2[1..];
    }
  }

  /** The cues of the loop are the only segmentation of the kept tokens. */
  lemma SegmentCharacterised(ws: seq<WordRecord>, gs: seq<seq<Token>>, p: seq<Token>)
    requires IsSegmentation(Kept(ws), |ws|, gs, p)
    ensures Segment(ws) == Packing(gs, p)
  {
    SegmentIsSegmentation(ws);
    SegmentationUnique(Kept(ws), |ws|, gs, p, Segment(ws).groups, Segment(ws).pending);
  }

  /** A segmentation whose last token is the last raw entry leaves nothing
      buffered. */
  lemma NothingPending(toks: seq<Token>, n: nat, gs: seq<seq<Token>>, p: seq<Token>)
    requires IsSegmentation(toks, n, gs, p)
    requires toks != [] && toks[|toks| - 1].pos == n - 1
    ensures p == [] && Concat(gs) == toks
  {
    if p != [] {
      assert p[|p| - 1] == toks[|toks| - 1];
      assert Closes(p, n);
      PendingHasNoCue(p, p, n);
      assert false;
    }
    assert Concat(gs) + [] == Concat(gs);
  }

  /** When the last raw entry is not blank, no word is left buffered: every
      kept word lands in exactly one cue, in order. */
  lemma AllWordsEmitted(ws: seq<WordRecord>)
    requires ws != [] && Strip(ws[|ws| - 1].word) != []
    ensures Segment(ws).pending == []
    ensures Concat(Segment(ws).groups) == Kept(ws)
  {
    var cs := StripWords(ws);
    assert cs[|cs| - 1].word != [];
    KeptEndsWithLast(cs, 0);
    SegmentIsSegmentation(ws);
    NothingPending(Kept(ws), |ws|, Segment(ws).groups, Segment(ws).pending);
  }

  /** A word of a cue: as `strip()` leaves it, and not empty. */
  predicate WordOk(t: Token) {
    t.word != [] && IsStripped(t.word)
  }

  /** Every kept token carries a stripped, non-empty word. */
  lemma KeptWordsOk(ws: seq<WordRecord>)
    ensures forall a :: 0 <= a < |Kept(ws)| ==> WordOk(Kept(ws)[a])
  {
    KeptTokens(ws);
    forall a | 0 <= a < |Kept(ws)| ensures WordOk(Kept(ws)[a]) {
      StripSpec(ws[Kept(ws)[a].pos].word);
    }
  }

  /** The words of a group, in order. */
  function Words(g: seq<Token>): (r: seq<string>)
    ensures |r| == |g|
    ensures forall k :: 0 <= k < |g| ==> r[k] == g[k].word
  {
    if g == [] then [] else [g[0].word] + Words(g[1..])
  }

  /** Lines 42-43: the cue emitted for the buffer `g`. */
  function CueOf(g: seq<Token>, index: nat): Cue
    requires g != []
  {
    Cue(index, g[0].start, g[|g| - 1].end, Words(g))
  }

  /** The cues for the groups `gs`, numbered from `first`. */
  function CuesFrom(gs: seq<seq<Token>>, first: nat): (cs: seq<Cue>)
    requires forall j :: 0 <= j < |gs| ==> gs[j] != []
    ensures |cs| == |gs|
  {
    if gs == [] then []
    else [CueOf(gs[0], first)] + CuesFrom(gs[1..], first + 1)
  }

  /** The cue at position `j` is the one for group `j`, numbered
      `first + j`: numbering is consecutive in emission order. */
  lemma {:induction false} CuesFromAt(gs: seq<seq<Token>>, first: nat, j: int)
    requires forall j :: 0 <= j < |gs| ==> gs[j] != []
    requires 0 <= j < |gs|
    ensures CuesFrom(gs, first)[j] == CueOf(gs[j], first + j)
    decreases j
  {
    if j > 0 {
      var rest := gs[1..];
      assert rest[j - 1] == gs[j];
      CuesFromAt(rest, first + 1, j - 1);
      assert CuesFrom(gs, first) == [CueOf(gs[0], first)] + CuesFrom(rest, first + 1);
    }
  }

  /** The cues `generate` emits for a word-timestamp list. */
  function Cues(ws: seq<WordRecord>): seq<Cue> {
    SegmentIsSegmentation(ws);
    var gs := Segment(ws).groups;
    assert forall j :: 0 <= j < |gs| ==> GroupOk(gs[j], |ws|);
    CuesFrom(gs, 1)
  }

  /** Every cue word is a kept token, so it is stripped and not empty. */
  lemma GroupWordsOk(ws: seq<WordRecord>)
    ensures forall j, k :: 0 <= j < |Segment(ws).groups| && 0 <= k < |Segment(ws).groups[j]| ==>
      WordOk(Segment(ws).groups[j][k])
  {
    var gs := Segment(ws).groups;
    SegmentIsSegmentation(ws);
    KeptWordsOk(ws);
    forall j, k | 0 <= j < |gs| && 0 <= k < |gs[j]| ensures WordOk(gs[j][k]) {
      ConcatHas(gs, j, k);
      var toks := Concat(gs) + Segment(ws).pending;
      assert gs[j][k] in toks;
    }
  }

  /** The text of a cue over stripped words is those words joined by
      single spaces: the final `strip()` changes nothing. */
  lemma CueTextIsJoin(g: seq<Token>, index: nat)
    requires g != [] && forall k :: 0 <= k < |g| ==> WordOk(g[k])
    ensures CueText(CueOf(g, index)) == Join(Words(g), " ")
  {
    var w := Words(g);
    assert forall k :: 0 <= k < |w| ==> w[k] == g[k].word && WordOk(g[k]);
    JoinStripped(w);
  }

  /** Cue `j` is numbered `j + 1`, starts at its first word's start, ends at
      its last word's end, and its text is its words joined by single
      spaces (stripping changes nothing). */
  lemma CuesFaithful(ws: seq<WordRecord>)
    ensures |Cues(ws)| == |Segment(ws).groups|
    ensures forall j :: 0 <= j < |Cues(ws)| ==>
      var g := Segment(ws).groups[j];
      && g != []
      && Cues(ws)[j].index == j + 1
      && Cues(ws)[j].start == g[0].start
      && Cues(ws)[j].end == g[|g| - 1].end
      && Cues(ws)[j].words == Words(g)
      && CueText(Cues(ws)[j]) == Join(Words(g), " ")
  {
    var gs := Segment(ws).groups;
    var cs := Cues(ws);
    SegmentIsSegmentation(ws);
    GroupWordsOk(ws);
    forall j | 0 <= j < |cs|
      ensures gs[j] != [] && cs[j] == CueOf(gs[j], j + 1)
      ensures CueText(cs[j]) == Join(Words(gs[j]), " ")
    {
      assert GroupOk(gs[j], |ws|);
      CuesFromAt(gs, 1, j);
      CueTextIsJoin(gs[j], j + 1);
    }
  }

  /** When no word holds whitespace inside it, splitting a cue's text on
      whitespace gives back exactly the cue's words. */
  lemma CueTextSplits(ws: seq<WordRecord>, j: int)
    requires 0 <= j < |Cues(ws)|
    requires forall k :: 0 <= k < |Segment(ws).groups[j]| ==> HasNoSpace(Segment(ws).groups[j][k].word)
    ensures Split(CueText(Cues(ws)[j])) == Words(Segment(ws).groups[j])
  {
    CuesFaithful(ws);
    GroupWordsOk(ws);
    var g := Segment(ws).groups[j];
    var w := Words(g);
    assert forall k :: 0 <= k < |w| ==> w[k] == g[k].word && WordOk(g[k]);
    SplitJoin(w);
  }

  /** Time-ordered input: every word ends no earlier than it starts and
      no later than any later word starts. */
  predicate TimeOrdered(ws: seq<WordRecord>) {
    && (forall i :: 0 <= i < |ws| ==> ws[i].start <= ws[i].end)
    && (forall i, k :: 0 <= i < k < |ws| ==> ws[i].end <= ws[k].start)
  }

  /** Stripping the words keeps the input time-ordered. */
  lemma StripKeepsTimes(ws: seq<WordRecord>)
    requires TimeOrdered(ws)
    ensures TimeOrdered(StripWords(ws))
  {
    var cs := StripWords(ws);
    assert forall i :: 0 <= i < |ws| ==> cs[i].start == ws[i].start && cs[i].end == ws[i].end;
  }

  /** Two tokens of the kept list keep their raw entries' times in order. */
  lemma KeptTimes(ws: seq<WordRecord>, a: int, b: int)
    requires TimeOrdered(ws)
    requires 0 <= a <= b < |Kept(ws)|
    ensures Kept(ws)[a].start <= Kept(ws)[b].end
    ensures a < b ==> Kept(ws)[a].end <= Kept(ws)[b].start
  {
    var cs := StripWords(ws);
    StripKeepsTimes(ws);
    KeptFromSound(cs, 0);
    KeptFromIncreasing(cs, 0);
    var k := KeptFrom(cs, 0);
    assert TokenOf(cs, k[a]) && TokenOf(cs, k[b]);
    if a < b {
      assert k[a].pos < k[b].pos;
    }
  }

  /** Group `j` of the packing is the run of kept tokens from position
      `o`, the number of tokens in the groups before it. */
  lemma GroupInKept(ws: seq<WordRecord>, j: int) returns (o: nat)
    requires 0 <= j < |Segment(ws).groups|
    ensures o == |Concat(Segment(ws).groups[..j])|
    ensures var g := Segment(ws).groups[j];
      && g != [] && o + |g| <= |Kept(ws)|
      && g[0] == Kept(ws)[o] && g[|g| - 1] == Kept(ws)[o + |g| - 1]
  {
    var gs := Segment(ws).groups;
    SegmentIsSegmentation(ws);
    assert GroupOk(gs[j], |ws|);
    BlockIn(gs, Segment(ws).pending, Kept(ws), j);
    o := |Concat(gs[..j])|;
  }

  /** Input whose words each end no earlier than they start and whose
      starts never decrease; words may overlap. */
  predicate StartsOrdered(ws: seq<WordRecord>) {
    && (forall i :: 0 <= i < |ws| ==> ws[i].start <= ws[i].end)
    && (forall i, k :: 0 <= i < k < |ws| ==> ws[i].start <= ws[k].start)
  }

  /** Time-ordered input has ordered starts; the converse fails for
      overlapping words. */
  lemma TimeOrderedStarts(ws: seq<WordRecord>)
    requires TimeOrdered(ws)
    ensures StartsOrdered(ws)
  {
    forall i, k | 0 <= i < k < |ws| ensures ws[i].start <= ws[k].start {
      assert ws[i].start <= ws[i].end <= ws[k].start;
    }
  }

  /** Overlapping words have ordered starts without being time-ordered. */
  lemma OverlapStartsOrdered()
    ensures var ws := [WordRecord("a", 0.0, 2.0), WordRecord("b", 1.0, 1.5)];
      StartsOrdered(ws) && !TimeOrdered(ws)
  {
    var ws := [WordRecord("a", 0.0, 2.0), WordRecord("b", 1.0, 1.5)];
    assert ws[0].end > ws[1].start;
  }

  /** Stripping the words keeps the starts ordered. */
  lemma StripKeepsStarts(ws: seq<WordRecord>)
    requires StartsOrdered(ws)
    ensures StartsOrdered(StripWords(ws))
  {
    var cs := StripWords(ws);
    assert forall i :: 0 <= i < |ws| ==> cs[i].start == ws[i].start && cs[i].end == ws[i].end;
  }

  /** Of two kept tokens, the later one starts no earlier, and ends no
      earlier than it starts. */
  lemma KeptStarts(ws: seq<WordRecord>, a: int, b: int)
    requires StartsOrdered(ws)
    requires 0 <= a <= b < |Kept(ws)|
    ensures Kept(ws)[a].start <= Kept(ws)[b].start <= Kept(ws)[b].end
  {
    var cs := StripWords(ws);
    StripKeepsStarts(ws);
    KeptFromSound(cs, 0);
    KeptFromIncreasing(cs, 0);
    var k := KeptFrom(cs, 0);
    assert TokenOf(cs, k[a]) && TokenOf(cs, k[b]);
    if a < b {
      assert k[a].pos < k[b].pos;
    }
  }

  /** When every word ends no earlier than it starts and starts never
      decrease, a cue ends no earlier than it starts; overlapping words are
      allowed. */
  lemma CueTimeOrdered(ws: seq<WordRecord>, j: int)
    requires StartsOrdered(ws)
    requires 0 <= j < |Cues(ws)|
    ensures Cues(ws)[j].start <= Cues(ws)[j].end
  {
    CuesFaithful(ws);
    var o := GroupInKept(ws, j);
    var g := Segment(ws).groups[j];
    KeptStarts(ws, o, o + |g| - 1);
  }

  /** On time-ordered input a cue ends no later than the next one starts. */
  lemma CuesDisjoint(ws: seq<WordRecord>, j: int)
    requires TimeOrdered(ws)
    requires 0 < j < |Cues(ws)|
    ensures Cues(ws)[j - 1].end <= Cues(ws)[j].start
  {
    CuesFaithful(ws);
    var gs := Segment(ws).groups;
    var o1 := GroupInKept(ws, j - 1);
    var o2 := GroupInKept(ws, j);
    ConcatPrefixStep(gs, j - 1);
    assert j - 1 + 1 == j;
    KeptTimes(ws, o1 + |gs[j - 1]| - 1, o2);
  }

  /** On time-ordered input no cue ends before it starts, and every cue ends
      no later than the next one starts. */
  lemma CuesTimeOrdered(ws: seq<WordRecord>)
    requires TimeOrdered(ws)
    ensures forall j :: 0 <= j < |Cues(ws)| ==> Cues(ws)[j].start <= Cues(ws)[j].end
    ensures forall j :: 0 < j < |Cues(ws)| ==> Cues(ws)[j - 1].end <= Cues(ws)[j].start
  {
    TimeOrderedStarts(ws);
    forall j | 0 <= j < |Cues(ws)| ensures Cues(ws)[j].start <= Cues(ws)[j].end {
      CueTimeOrdered(ws, j);
    }
    forall j | 0 < j < |Cues(ws)| ensures Cues(ws)[j - 1].end <= Cues(ws)[j].start {
      CuesDisjoint(ws, j);
    }
  }

  /** Line 55: the language part of the file name: `english` for `"en"`,
      else the lower-cased display name of a known code, else the
      lower-cased code itself. */
  function LanguageLabel(language: string): string {
    if language == "en" then "english"
    else Lower(if language in IndicLanguages then IndicLanguages[language] else language)
  }

  /** Whatever the code, its label holds no capital letter. */
  lemma LabelIsLower(language: string)
    ensures HasNoUpper(LanguageLabel(language))
  {
    if language != "en" {
      LowerSpec(if language in IndicLanguages then IndicLanguages[language] else language);
    }
  }

  /** Line 56: `subtitles_<video>_<label>.srt`; every name starts with the
      prefix and carries the `.srt` extension. */
  function FileName(videoName: string, language: string): (name: string)
    ensures |name| == |SrtFilenamePrefix| + |videoName| + 1 + |LanguageLabel(language)| + |SrtExtension|
    ensures name[..|SrtFilenamePrefix|] == SrtFilenamePrefix
    ensures name[|name| - |SrtExtension|..] == SrtExtension
  {
    SrtFilenamePrefix + videoName + "_" + LanguageLabel(language) + SrtExtension
  }

  /** Line 57: the file sits in the output directory. */
  function SrtPath(videoName: string, language: string): string {
    OutputDir + "/" + FileName(videoName, language)
  }

  /** The file name reads back: prefix, video name, `_`, label, extension,
      each at its place. */
  lemma FileNameParts(videoName: string, language: string)
    ensures var name := FileName(videoName, language);
      var p, v, l := |SrtFilenamePrefix|, |videoName|, |LanguageLabel(language)|;
      && name[..p] == "subtitles_"
      && name[p..p + v] == videoName
      && name[p + v] == '_'
      && name[p + v + 1..p + v + 1 + l] == LanguageLabel(language)
      && name[p + v + 1 + l..] == ".srt"
  {
    var name := FileName(videoName, language);
    var p, v, l := |SrtFilenamePrefix|, |videoName|, |LanguageLabel(language)|;
    assert name == (((SrtFilenamePrefix + videoName) + "_") + LanguageLabel(language)) + SrtExtension;
  }

  /** Different videos never share a file name for the same language. */
  lemma FileNameInjective(v1: string, v2: string, language: string)
    requires FileName(v1, language) == FileName(v2, language)
    ensures v1 == v2
  {
    FileNameParts(v1, language);
    FileNameParts(v2, language);
  }

  /** Line 55 for `"en"`: the word `english`, not a display name. */
  lemma LabelOfEnglish()
    ensures LanguageLabel("en") == "english"
    ensures LanguageLabel("EN") == "en"
  {
    assert "EN" !in IndicLanguages;
    assert Lower("EN") == "en";
  }

  /** Line 55 for a known code: the lower-cased display name; an unknown
      code such as the display name itself is only lower-cased, so the two
      share a label. */
  lemma LabelOfKnownCode()
    ensures LanguageLabel("hi") == "hindi" == LanguageLabel("Hindi")
  {
    assert IndicLanguages["hi"] == "Hindi";
    assert "Hindi" !in IndicLanguages;
    assert Lower("Hindi") == "hindi";
  }

  lemma LabelOfTamil()
    ensures LanguageLabel("ta") == "tamil"
  {
    assert IndicLanguages["ta"] == "Tamil";
    assert Lower("Tamil") == "tamil";
  }

  /** The file name for a Tamil video called `talk`. */
  lemma FileNameExample()
    ensures FileName("talk", "ta") == "subtitles_talk_tamil.srt"
  {
    LabelOfTamil();
  }

  const NoWordTimestamps: string := "No word timestamps provided"

  /** `generate(word_timestamps, task_id, language, video_name)` (lines
      15-63): the SubRip text of the cues and the path it is written to, or
      the raised error for a missing or empty word list. The file write
      itself is left out. */
  function Generate(words: Option<seq<WordRecord>>, taskId: string, language: string, videoName: string)
    : (r: Result<SrtGenerationArtifact>)
    ensures r.Err? <==> words.None? || words.value == []
    ensures r.Err? ==> r.error == NoWordTimestamps
    ensures r.Ok? ==> r.value.srtFilePath == Some(SrtPath(videoName, language))
  {
    if words.None? || words.value == [] then Err(NoWordTimestamps)
    else Ok(SrtGenerationArtifact(Render(Cues(words.value)), Some(SrtPath(videoName, language))))
  }

  /** A cue word is the stripped word of some raw entry. */
  lemma GroupWordsFromEntries(ws: seq<WordRecord>, j: int, k: int)
    requires 0 <= j < |Segment(ws).groups| && 0 <= k < |Segment(ws).groups[j]|
    ensures exists i :: 0 <= i < |ws| && Segment(ws).groups[j][k].word == Strip(ws[i].word)
  {
    var gs := Segment(ws).groups;
    SegmentIsSegmentation(ws);
    KeptTokens(ws);
    ConcatHas(gs, j, k);
    var toks := Concat(gs) + Segment(ws).pending;
    assert gs[j][k] in toks;
    var a :| 0 <= a < |toks| && toks[a] == gs[j][k];
    assert Kept(ws)[a].word == Strip(ws[Kept(ws)[a].pos].word);
  }

  /** Line breaks inside raw words survive stripping only inside a word; a
      raw list without any keeps every cue word free of them. */
  lemma CueWordsNoBreak(ws: seq<WordRecord>)
    requires forall i :: 0 <= i < |ws| ==> '\n' !in ws[i].word
    ensures forall j, k :: 0 <= j < |Cues(ws)| && 0 <= k < |Cues(ws)[j].words| ==> '\n' !in Cues(ws)[j].words[k]
  {
    CuesFaithful(ws);
    forall j, k | 0 <= j < |Cues(ws)| && 0 <= k < |Cues(ws)[j].words|
      ensures '\n' !in Cues(ws)[j].words[k]
    {
      GroupWordsFromEntries(ws, j, k);
      var i :| 0 <= i < |ws| && Segment(ws).groups[j][k].word == Strip(ws[i].word);
      StripWithin(ws[i].word, '\n');
    }
  }

  /** The file content of a successful run, read line by line: cue `j` is
      the four lines from `4j`, numbered `j + 1`, timed from its first
      word's start to its last word's end, with its words joined by single
      spaces, and a blank line. */
  lemma GenerateLayout(ws: seq<WordRecord>, taskId: string, language: string, videoName: string, j: int)
    requires ws != []
    requires forall i :: 0 <= i < |ws| ==> '\n' !in ws[i].word
    requires 0 <= j < |Cues(ws)|
    ensures var lines := SplitOn(Generate(Some(ws), taskId, language, videoName).value.srtContent, '\n');
      var g := Segment(ws).groups[j];
      && |lines| == 4 * |Cues(ws)|
      && g != []
      && lines[4 * j] == Decimal(j + 1)
      && lines[4 * j + 1] == Format(g[0].start) + " --> " + Format(g[|g| - 1].end)
      && lines[4 * j + 2] == Join(Words(g), " ")
      && lines[4 * j + 3] == ""
  {
    var cs := Cues(ws);
    CuesFaithful(ws);
    CueWordsNoBreak(ws);
    RenderSplits(cs);
    LinesCount(cs);
    LinesLayout(cs, j);
  }

  /** Three words spanning 5.3 seconds, the last being the last entry. */
  const LongWords: seq<WordRecord> :=
    [WordRecord("hello", 0.0, 0.4), WordRecord("world", 0.4, 0.9), WordRecord("foo", 4.9, 5.3)]

  /** Stripping leaves `LongWords` as they are. */
  lemma LongWordsStripped()
    ensures StripWords(LongWords) == LongWords
  {
    StripKeepsStripped("hello");
    StripKeepsStripped("world");
    StripKeepsStripped("foo");
  }

  /** The packing of `LongWords` is a single group holding all three. */
  lemma LongWordsSegment()
    ensures Segment(LongWords) == Packing([[Token(0, "hello", 0.0, 0.4), Token(1, "world", 0.4, 0.9),
                                             Token(2, "foo", 4.9, 5.3)]], [])
  {
    var ws := LongWords;
    LongWordsStripped();
    var g := [Token(0, "hello", 0.0, 0.4), Token(1, "world", 0.4, 0.9), Token(2, "foo", 4.9, 5.3)];
    assert Scan(ws, 3, [], 0) == Packing([], []);
    assert g[..2] + [g[2]] == g;
    assert Scan(ws, 2, g[..2], 12) == Packing([g], []);
    assert g[..1] + [g[1]] == g[..2];
    assert Scan(ws, 1, g[..1], 6) == Packing([g], []);
    assert [] + [g[0]] == g[..1];
  }

  /** The word that makes the cue too long is kept in it: `LongWords` form
      one cue from 0.0 to 5.3, not a cue that stops before `foo`. */
  lemma LastWordJoinsCue()
    ensures Cues(LongWords) == [Cue(1, 0.0, 5.3, ["hello", "world", "foo"])]
  {
    LongWordsSegment();
    var g := [Token(0, "hello", 0.0, 0.4), Token(1, "world", 0.4, 0.9), Token(2, "foo", 4.9, 5.3)];
    assert Words(g) == ["hello", "world", "foo"];
    assert CuesFrom([g], 1) == [CueOf(g, 1)];
  }

  /** A trailing blank entry hides the end of the list: the words still
      buffered before it are never emitted. */
  lemma TrailingBlankDropsWords()
    ensures var ws := [WordRecord("a", 0.0, 1.0), WordRecord(" ", 1.0, 2.0)];
      Cues(ws) == [] && |Segment(ws).pending| == 1 && Segment(ws).pending[0].word == "a"
  {
    var ws := [WordRecord("a", 0.0, 1.0), WordRecord(" ", 1.0, 2.0)];
    StripKeepsStripped("a");
    assert Strip(" ") == "";
    assert StripWords(ws) == [WordRecord("a", 0.0, 1.0), WordRecord("", 1.0, 2.0)];
  }
}
