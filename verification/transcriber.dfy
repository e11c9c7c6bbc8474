/** `Transcriber.transcribe` (`src/components/transcriber.py`): English goes
    to the fallback engine, whose per-segment word lists are flattened;
    every other language goes to the regional engine in `rnnt` mode, whose
    words get evenly spaced, back-to-back timestamps over the audio. */
module Transcriber {
  import opened Results
  import opened Text
  import opened Artifacts
  import opened SpeechEngines

  /** `str(KeyError('text'))`: the message of a fallback answer without
      text (line 28). */
  const MissingText: string := "'text'"

  /** Lines 57-59: the artifact for a raised error. */
  function Failure(message: string): TranscriptionArtifact {
    TranscriptionArtifact(None, None, "", Some(message))
  }

  /** Lines 29-31: the word lists of the segments one after another; a
      segment without a `words` key contributes nothing. */
  function Flatten(segments: seq<WhisperSegment>): seq<WordRecord> {
    if segments == [] then []
    else segments[0].words.GetOr([]) + Flatten(segments[1..])
  }

  /** Flattening is a concatenation: the words of earlier segments come
      first, in segment order. */
  lemma {:induction false} FlattenAppend(a: seq<WhisperSegment>, b: seq<WhisperSegment>)
    ensures Flatten(a + b) == Flatten(a) + Flatten(b)
    decreases |a|
  {
    if a == [] {
      assert [] + b == b;
    } else {
      FlattenAppend(a[1..], b);
      assert (a + b)[1..] == a[1..] + b;
      assert (a + b)[0] == a[0];
    }
  }

  /** One segment flattens to its own word list, or to nothing. */
  lemma FlattenOne(s: WhisperSegment)
    ensures Flatten([s]) == s.words.GetOr([])
    ensures s.words.None? ==> Flatten([s]) == []
  {
    assert [s][1..] == [];
    assert s.words.GetOr([]) + [] == s.words.GetOr([]);
  }

  /** Lines 46-51: from time `t` on, one slot of length `step` per word,
      each starting where the previous one ended. */
  function Slots(words: seq<string>, step: real, t: real): (r: seq<WordRecord>)
    ensures |r| == |words|
  {
    if words == [] then []
    else [WordRecord(words[0], t, t + step)] + Slots(words[1..], step, t + step)
  }

  /** `n` steps of length `step` laid end to end, as the loop's running
      `current_time` adds them up. */
  function Steps(n: nat, step: real): real {
    if n == 0 then 0.0 else Steps(n - 1, step) + step
  }

  /** `n` steps add up to `n * step`. */
  lemma {:induction false} StepsProduct(n: nat, step: real)
    ensures Steps(n, step) == n as real * step
  {
    if n > 0 {
      StepsProduct(n - 1, step);
      assert (n - 1) as real * step + step == n as real * step;
    }
  }

  /** Slot `k` carries word `k` and spans `k` to `k + 1` steps after `t`. */
  lemma {:induction false} SlotAt(words: seq<string>, step: real, t: real, k: int)
    requires 0 <= k < |words|
    ensures Slots(words, step, t)[k] == WordRecord(words[k], t + Steps(k, step), t + Steps(k + 1, step))
    decreases k
  {
    if k > 0 {
      SlotAt(words[1..], step, t + step, k - 1);
      assert Slots(words, step, t)[k] == Slots(words[1..], step, t + step)[k - 1];
      StepsShift(k, step);
      StepsShift(k + 1, step);
    }
  }

  /** Taking the first step up front leaves `n - 1` steps. */
  lemma {:induction false} StepsShift(n: nat, step: real)
    requires n > 0
    ensures step + Steps(n - 1, step) == Steps(n, step)
  {
    if n > 1 {
      StepsShift(n - 1, step);
    }
  }

  /** Lines 41-51: the words of the regional text, spread evenly over the
      audio's duration; nothing for an absent, empty or blank text. */
  function Synthesise(text: Option<string>, duration: real): seq<WordRecord> {
    var words := if Truthy(text) then Split(text.value) else [];
    if words == [] then [] else Slots(words, duration / |words| as real, 0.0)
  }

  /** Slots from time `t`: one per word, in order; the first starts at
      `t`, each lasts `step`, each starts where the previous ended, and the
      last ends `n` steps after `t`. */
  lemma SlotsChain(words: seq<string>, step: real, t: real)
    requires words != []
    ensures var r, n := Slots(words, step, t), |words|;
      && r[0].start == t
      && (forall k :: 0 <= k < n ==> r[k].word == words[k] && r[k].end == r[k].start + step)
      && (forall k :: 0 < k < n ==> r[k].start == r[k - 1].end)
      && r[n - 1].end == t + Steps(n, step)
  {
    var r, n := Slots(words, step, t), |words|;
    forall k | 0 <= k < n
      ensures r[k] == WordRecord(words[k], t + Steps(k, step), t + Steps(k + 1, step))
    {
      SlotAt(words, step, t, k);
    }
  }

  /** `n` steps of `d / n` add up to `d`. */
  lemma StepsCover(d: real, n: nat)
    requires n > 0
    ensures Steps(n, d / n as real) == d
  {
    StepsProduct(n, d / n as real);
  }

  /** The synthesised timestamps: one record per word of the text, in order
      and unchanged; the first starts at 0, each lasts `duration / n`, each
      starts where the previous ended, and the last ends at the duration. */
  lemma SynthesisedSlots(text: string, duration: real)
    requires Split(text) != []
    ensures var r, words, n := Synthesise(Some(text), duration), Split(text), |Split(text)|;
      && |r| == n
      && (forall k :: 0 <= k < n ==> r[k].word == words[k])
      && r[0].start == 0.0
      && (forall k :: 0 <= k < n ==> r[k].end == r[k].start + duration / n as real)
      && (forall k :: 0 < k < n ==> r[k].start == r[k - 1].end)
      && r[n - 1].end == duration
  {
    var words, n := Split(text), |Split(text)|;
    var step := duration / n as real;
    assert Synthesise(Some(text), duration) == Slots(words, step, 0.0);
    SlotsChain(words, step, 0.0);
    StepsCover(duration, n);
  }

  /** `transcribe(audio_path, language)`. */
  function Transcribe(e: Engines, audioPath: string, language: string): (r: TranscriptionArtifact)
    ensures !e.loaded ==> r == Failure(ModelsNotLoaded)
    ensures r.error.Some? <==> r.modelUsed == ""
    ensures r.error.Some? ==> r.transcription.None? && r.wordTimestamps.None?
    ensures r.error.None? ==> r.wordTimestamps.Some?
    ensures r.modelUsed == "Whisper" <==> r.error.None? && language == "en"
    ensures r.modelUsed == "IndicConformer" <==> r.error.None? && language != "en"
  {
    if !e.loaded then Failure(ModelsNotLoaded)
    else if language == "en" then
      match e.fallback(audioPath, Some("en"), true)
      case Err(m) => Failure(m)
      case Ok(o) =>
        if o.text.None? then Failure(MissingText)
        else TranscriptionArtifact(o.text, Some(Flatten(o.segments.GetOr([]))), "Whisper", None)
    else
      match e.load(audioPath)
      case Err(m) => Failure(m)
      case Ok(w) =>
        match e.regional(w, language, Rnnt)
        case Err(m) => Failure(m)
        case Ok(t) => TranscriptionArtifact(t, Some(Synthesise(t, Duration(w))), "IndicConformer", None)
  }

  /** On the English path the timestamps are the segments' word lists in
      segment order, and the text is the engine's. */
  lemma WhisperPath(e: Engines, audioPath: string, o: WhisperOutput)
    requires e.loaded && e.fallback(audioPath, Some("en"), true) == Ok(o) && o.text.Some?
    ensures Transcribe(e, audioPath, "en")
         == TranscriptionArtifact(o.text, Some(Flatten(o.segments.GetOr([]))), "Whisper", None)
  {
  }

  /** On the regional path a text with words comes back unchanged, with one
      timestamp per word spread evenly over the audio: the first starts at
      0, each lasts `d / n`, each starts where the previous ended, and the
      last ends at the duration `d`. */
  lemma RegionalPath(e: Engines, audioPath: string, language: string, w: Waveform, text: string)
    requires e.loaded && language != "en" && e.load(audioPath) == Ok(w)
    requires e.regional(w, language, Rnnt) == Ok(Some(text))
    requires Split(text) != []
    ensures var r := Transcribe(e, audioPath, language);
      r.transcription == Some(text) && r.modelUsed == "IndicConformer" && r.error.None?
    ensures var ts, words, n, d := Transcribe(e, audioPath, language).wordTimestamps.value, Split(text), |Split(text)|, Duration(w);
      && |ts| == n
      && (forall k :: 0 <= k < n ==> ts[k].word == words[k])
      && ts[0].start == 0.0
      && (forall k :: 0 <= k < n ==> ts[k].end == ts[k].start + d / n as real)
      && (forall k :: 0 < k < n ==> ts[k].start == ts[k - 1].end)
      && ts[n - 1].end == d
  {
    SynthesisedSlots(text, Duration(w));
  }

  /** An empty, blank or absent regional text is not an error: the text is
      returned as it came, with no timestamps. */
  lemma EmptyTranscription(e: Engines, audioPath: string, language: string, w: Waveform)
    requires e.loaded && language != "en" && e.load(audioPath) == Ok(w)
    requires e.regional(w, language, Rnnt).Ok?
    requires Split(e.regional(w, language, Rnnt).value.GetOr("")) == []
    ensures var t := e.regional(w, language, Rnnt).value;
      Transcribe(e, audioPath, language) == TranscriptionArtifact(t, Some([]), "IndicConformer", None)
  {
  }

  /** Only the `rnnt` mode is asked: engines that differ in `ctc` alone give
      the same artifact. */
  lemma RnntOnly(e1: Engines, e2: Engines, audioPath: string, language: string)
    requires e2 == e1.(regional := e2.regional)
    requires forall w: Waveform, l: string :: e2.regional(w, l, Rnnt) == e1.regional(w, l, Rnnt)
    ensures Transcribe(e1, audioPath, language) == Transcribe(e2, audioPath, language)
  {
  }
}
