/** `LanguageDetector.detect` (`src/components/language_detector.py`): every
    candidate language is scored from the regional engine's transcription of
    a short probe, the best candidate is taken in candidate order, the
    fallback engine is asked for English when no candidate is convincing,
    and a first-match table decides. */
module LanguageDetector {
  import opened Results
  import opened Text
  import opened Constants
  import opened Artifacts
  import opened SpeechEngines

  /** A candidate language and its score (an entry of `language_scores`). */
  datatype Candidate = Candidate(language: string, score: nat)

  /** The detector's verdict before it is wrapped in an artifact. */
  datatype Decision = Decision(language: string, confidence: real)

  function Min(a: nat, b: nat): nat {
    if a <= b then a else b
  }

  /** Line 46: the distinct characters of `text` other than the plain
      space (other whitespace is kept). */
  function UniqueChars(text: string): set<char> {
    set c | c in text && c != ' '
  }

  /** Lines 42-53: the score of a candidate's transcription. */
  function TextScore(t: Option<string>): nat {
    if !Truthy(t) || |Strip(t.value)| <= 3 then 0
    else
      var text := Strip(t.value);
      var chars, words := |text|, |Split(text)|;
      if words >= 2 && chars >= 8 then 15 * words + 8 * |UniqueChars(text)| + Min(2 * chars, 100)
      else 0
  }

  /** The conditions of lines 42 and 47 under which a transcription
      scores: present, more than three characters once stripped, at least
      two words and eight characters. */
  predicate Scores(t: Option<string>) {
    && Truthy(t)
    && |Strip(t.value)| > 3
    && |Split(Strip(t.value))| >= 2
    && |Strip(t.value)| >= 8
  }

  /** A transcription scores 0 exactly when one of the conditions fails,
      and otherwise at least 54 (two words, one distinct character, eight
      characters), which clears the weak threshold. */
  lemma TextScoreZero(t: Option<string>)
    ensures TextScore(t) == 0 <==> !Scores(t)
    ensures TextScore(t) != 0 ==> TextScore(t) >= 54 > WeakIndianThreshold
  {
    if Scores(t) {
      var text := Strip(t.value);
      StripSpec(t.value);
      assert text[0] in UniqueChars(text) by {
        assert text[0] != ' ';
      }
      assert |UniqueChars(text)| >= 1;
    }
  }

  /** Line 41: the `rnnt` transcription, or the `ctc` one when `rnnt`
      returns nothing or an empty text; a raised error ends the attempt. */
  function Transcript(e: Engines, w: Waveform, language: string): Result<Option<string>> {
    var r := e.regional(w, language, Rnnt);
    if r.Err? || Truthy(r.value) then r else e.regional(w, language, Ctc)
  }

  /** The `ctc` mode is asked only when `rnnt` answered without raising
      and with nothing or an empty text: otherwise the transcription does not
      depend on what `ctc` would answer. */
  lemma CtcOnlyAfterEmptyRnnt(e1: Engines, e2: Engines, w: Waveform, language: string)
    requires e1.regional(w, language, Rnnt) == e2.regional(w, language, Rnnt)
    requires e1.regional(w, language, Rnnt).Err? || Truthy(e1.regional(w, language, Rnnt).value)
    ensures Transcript(e1, w, language) == Transcript(e2, w, language) == e1.regional(w, language, Rnnt)
  {
  }

  /** Lines 40-55: a candidate whose engine raises scores 0. */
  function CandidateScore(e: Engines, w: Waveform, language: string): nat {
    match Transcript(e, w, language)
    case Err(_) => 0
    case Ok(t) => TextScore(t)
  }

  /** Lines 38-55: the scores of the candidates, in candidate order. */
  function ScoreAll(e: Engines, w: Waveform, languages: seq<string>): (cs: seq<Candidate>)
    ensures |cs| == |languages|
    ensures forall i :: 0 <= i < |cs| ==> cs[i].language == languages[i]
    ensures forall i :: 0 <= i < |cs| ==> cs[i].score == CandidateScore(e, w, languages[i])
  {
    seq(|languages|, i requires 0 <= i < |languages| => Candidate(languages[i], CandidateScore(e, w, languages[i])))
  }

  /** Line 57: Python's `max` scans left to right and replaces its choice
      only on a strictly higher score, so it picks the first candidate with
      the highest score. */
  function FirstMax(cs: seq<Candidate>): (k: nat)
    requires cs != []
    ensures k < |cs|
    ensures forall j :: 0 <= j < |cs| ==> cs[j].score <= cs[k].score
    ensures forall j :: 0 <= j < k ==> cs[j].score < cs[k].score
  {
    if |cs| == 1 then 0
    else
      var k := FirstMax(cs[..|cs| - 1]);
      if cs[|cs| - 1].score > cs[k].score then |cs| - 1 else k
  }

  /** Only one position is the first with the highest score. */
  lemma FirstMaxUnique(cs: seq<Candidate>, k: int)
    requires 0 <= k < |cs|
    requires forall j :: 0 <= j < |cs| ==> cs[j].score <= cs[k].score
    requires forall j :: 0 <= j < k ==> cs[j].score < cs[k].score
    ensures FirstMax(cs) == k
  {
    var m := FirstMax(cs);
    assert !(m < k) && !(k < m);
  }

  /** Line 57: the best candidate's language, `None` without candidates. */
  function BestLanguage(cs: seq<Candidate>): Option<string> {
    if cs == [] then None else Some(cs[FirstMax(cs)].language)
  }

  /** Line 58: the best candidate's score, 0 without candidates. */
  function BestScore(cs: seq<Candidate>): nat {
    if cs == [] then 0 else cs[FirstMax(cs)].score
  }

  /** The best score bounds every score and belongs to the best language. */
  lemma BestScoreIsMax(cs: seq<Candidate>)
    ensures forall j :: 0 <= j < |cs| ==> cs[j].score <= BestScore(cs)
    ensures BestLanguage(cs).None? <==> cs == []
    ensures cs != [] ==> exists j :: 0 <= j < |cs| && cs[j] == Candidate(BestLanguage(cs).value, BestScore(cs))
  {
    if cs != [] {
      var k := FirstMax(cs);
      assert cs[k] == Candidate(BestLanguage(cs).value, BestScore(cs));
    }
  }

  /** Lines 64-71: the English probability read off the fallback engine's
      answer; a missing language counts as `unknown` and a missing text as
      empty. */
  function EnglishProb(o: WhisperOutput): (p: real)
    ensures p == 0.8 || p == 0.3 || p == 0.2
    ensures p >= EnglishThreshold <==> o.language == Some("en") && |Strip(o.text.GetOr(""))| > 10
    ensures p == 0.3 <==> o.language == Some("en") && |Strip(o.text.GetOr(""))| <= 10
    ensures p == 0.2 <==> o.language != Some("en")
  {
    var tag := o.language.GetOr("unknown");
    var text := Strip(o.text.GetOr(""));
    if tag == "en" && |text| > 10 then 0.8
    else if tag == "en" then 0.3
    else 0.2
  }

  /** Lines 61-71: the fallback engine is asked only when the best score is
      below 80; its raised error escapes. */
  function EnglishStep(e: Engines, audioPath: string, bestScore: nat): Result<real> {
    if bestScore < 80 then
      match e.fallback(audioPath, None, false)
      case Err(m) => Err(m)
      case Ok(o) => Ok(EnglishProb(o))
    else Ok(0.0)
  }

  /** The English probabilities the detector can hold. */
  predicate IsEnglishProb(p: real) {
    p == 0.0 || p == 0.2 || p == 0.3 || p == 0.8
  }

  /** Lines 76 and 82: `min(1.0, score / 150)`. */
  function Confidence(score: nat): (c: real)
    ensures 0.0 <= c <= 1.0
    ensures score < 150 ==> c * 150.0 == score as real
    ensures score >= 150 ==> c == 1.0
  {
    var x := score as real / 150.0;
    if 1.0 <= x then 1.0 else x
  }

  /** Lines 74-88: the first row of the decision table whose test holds.
      The rows partition the inputs: a strong score picks row 1, a weak but
      not strong score row 3 whatever the English probability, and below the
      weak threshold the probability alone decides between rows 2, 4 and 5. */
  function Row(bestScore: nat, englishProb: real): (row: nat)
    ensures 1 <= row <= 5
    ensures row == 1 <==> bestScore >= StrongIndianThreshold
    ensures row == 3 <==> WeakIndianThreshold <= bestScore < StrongIndianThreshold
    ensures row == 2 <==> bestScore < WeakIndianThreshold && englishProb >= EnglishThreshold
    ensures row == 4 <==> bestScore < WeakIndianThreshold && 0.3 < englishProb < EnglishThreshold
    ensures row == 5 <==> bestScore < WeakIndianThreshold && englishProb <= 0.3
  {
    if bestScore >= StrongIndianThreshold then 1
    else if englishProb >= EnglishThreshold && bestScore < WeakIndianThreshold then 2
    else if bestScore >= WeakIndianThreshold then 3
    else if englishProb > 0.3 then 4
    else 5
  }

  /** Lines 74-88: the decision for the scored candidates. */
  function Decide(cs: seq<Candidate>, englishProb: real): Decision {
    var s := BestScore(cs);
    match Row(s, englishProb)
    case 1 => Decision(BestLanguage(cs).value, Confidence(s))
    case 2 => Decision("en", englishProb)
    case 3 => Decision(BestLanguage(cs).value, Confidence(s))
    case 4 => Decision("en", englishProb)
    case _ => Decision("hi", 0.3)
  }

  /** With the configured thresholds row 4 never fires: 0.8 is the only
      probability above 0.3, and rows 2 and 3 catch it first. */
  lemma RowFourUnreachable(bestScore: nat, englishProb: real)
    requires IsEnglishProb(englishProb)
    ensures Row(bestScore, englishProb) != 4
  {
  }

  /** A strong candidate wins outright, whatever the English probability. */
  lemma StrongCandidateWins(cs: seq<Candidate>, englishProb: real)
    requires BestScore(cs) >= StrongIndianThreshold
    ensures Decide(cs, englishProb) == Decision(BestLanguage(cs).value, Confidence(BestScore(cs)))
  {
  }

  /** Without any signal the detector guesses Hindi with confidence 0.3. */
  lemma DefaultIsHindi(cs: seq<Candidate>, englishProb: real)
    requires BestScore(cs) < WeakIndianThreshold && englishProb <= 0.3
    ensures Decide(cs, englishProb) == Decision("hi", 0.3)
  {
  }

  /** The decided language is a candidate, `en` or `hi`, and its confidence
      lies in [0, 1] for any English probability the detector can hold. */
  lemma DecisionBounds(cs: seq<Candidate>, englishProb: real)
    requires IsEnglishProb(englishProb)
    ensures var d := Decide(cs, englishProb);
      && (d.language == "en" || d.language == "hi" || exists j :: 0 <= j < |cs| && cs[j].language == d.language)
      && 0.0 <= d.confidence <= 1.0
  {
    BestScoreIsMax(cs);
  }

  /** The artifact of lines 93-95: Hindi, confidence 0, and the message. */
  function Failure(message: string): LanguageDetectionArtifact {
    LanguageDetectionArtifact("hi", 0.0, Some(message))
  }

  /** `detect(audio_path)`: a successful detection carries no error and
      names a candidate, `en` or `hi` with a confidence in [0, 1]; every
      raised error becomes the Hindi failure artifact. */
  function Detect(e: Engines, audioPath: string): (r: LanguageDetectionArtifact)
    ensures !e.loaded ==> r == Failure(ModelsNotLoaded)
    ensures e.loaded && e.load(audioPath).Err? ==> r == Failure(e.load(audioPath).error)
    ensures r.error.Some? ==> r.detectedLanguage == "hi" && r.confidence == 0.0
    ensures r.error.Some? <==>
      || !e.loaded
      || e.load(audioPath).Err?
      || EnglishStep(e, audioPath, BestScore(RunScores(e, e.load(audioPath).value))).Err?
    ensures r.error.None? ==>
      && (r.detectedLanguage in TestLanguages || r.detectedLanguage == "en" || r.detectedLanguage == "hi")
      && 0.0 <= r.confidence <= 1.0
  {
    if !e.loaded then Failure(ModelsNotLoaded)
    else
      match e.load(audioPath)
      case Err(m) => Failure(m)
      case Ok(w) =>
        var cs := ScoreAll(e, Probe(w), TestLanguages);
        match EnglishStep(e, audioPath, BestScore(cs))
        case Err(m) => Failure(m)
        case Ok(p) =>
          assert IsEnglishProb(p);
          DecisionBounds(cs, p);
          var d := Decide(cs, p);
          LanguageDetectionArtifact(d.language, d.confidence, None)
  }

  /** The candidate scores of a run: lines 34-55 on the probe of the loaded
      audio. */
  function RunScores(e: Engines, w: Waveform): seq<Candidate> {
    ScoreAll(e, Probe(w), TestLanguages)
  }

  /** A detection that nothing interrupts carries the decision table's
      verdict and no error. */
  lemma DetectSucceeds(e: Engines, audioPath: string, w: Waveform, p: real)
    requires e.loaded && e.load(audioPath) == Ok(w)
    requires EnglishStep(e, audioPath, BestScore(RunScores(e, w))) == Ok(p)
    ensures var d := Decide(RunScores(e, w), p);
      Detect(e, audioPath) == LanguageDetectionArtifact(d.language, d.confidence, None)
  {
  }

  /** With a best score of 80 or more the fallback engine is never asked:
      the result does not depend on it. */
  lemma FallbackSkipped(e1: Engines, e2: Engines, audioPath: string, w: Waveform)
    requires e1.loaded && e1.load(audioPath) == Ok(w)
    requires e2 == e1.(fallback := e2.fallback)
    requires BestScore(RunScores(e1, w)) >= 80
    ensures Detect(e1, audioPath) == Detect(e2, audioPath)
  {
    assert RunScores(e1, w) == RunScores(e2, w);
  }

  /** Below 80 the fallback engine is asked, and its raised error becomes the
      failure artifact. */
  lemma FallbackErrorEscapes(e: Engines, audioPath: string, w: Waveform)
    requires e.loaded && e.load(audioPath) == Ok(w)
    requires BestScore(RunScores(e, w)) < 80
    requires e.fallback(audioPath, None, false).Err?
    ensures Detect(e, audioPath) == Failure(e.fallback(audioPath, None, false).error)
  {
  }

  /** When no candidate scores and the fallback engine hears more than ten
      characters of English, the verdict is English with confidence 0.8. */
  lemma EnglishWhenNoCandidateScores(e: Engines, audioPath: string, w: Waveform, text: string)
    requires e.loaded && e.load(audioPath) == Ok(w)
    requires forall j :: 0 <= j < |TestLanguages| ==> CandidateScore(e, Probe(w), TestLanguages[j]) == 0
    requires e.fallback(audioPath, None, false) == Ok(WhisperOutput(Some("en"), Some(text), None))
    requires |Strip(text)| > 10
    ensures Detect(e, audioPath) == LanguageDetectionArtifact("en", 0.8, None)
  {
    var cs := RunScores(e, w);
    BestScoreIsMax(cs);
    assert BestScore(cs) == 0;
  }

  /** A candidate scoring 90 is chosen with confidence 0.6, whatever the
      fallback engine would say. */
  lemma StrongCandidateExample(englishProb: real)
    ensures Decide([Candidate("te", 0), Candidate("hi", 90), Candidate("ta", 90)], englishProb)
         == Decision("hi", 0.6)
  {
    var cs := [Candidate("te", 0), Candidate("hi", 90), Candidate("ta", 90)];
    assert FirstMax(cs[..2]) == 1 by {
      assert cs[..2][..1] == [Candidate("te", 0)];
    }
    assert FirstMax(cs) == 1;
  }
}
