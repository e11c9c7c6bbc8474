/** The collaborators the components call but do not own: audio loading and
    the two speech engines. Each is a function parameter, so every property
    proved about a component holds for every behaviour of its engines. */
module SpeechEngines {
  import opened Results
  import opened Constants
  import opened Artifacts

  /** Mono audio at the target rate, as loaded (and downmixed and resampled)
      from `audio`: only its length in samples matters to the components. */
  datatype Waveform = Waveform(audio: string, samples: nat)

  /** The first `n` samples of `w` (`wav[:, :n]`). */
  function Clip(w: Waveform, n: nat): (c: Waveform)
    ensures c.audio == w.audio
    ensures c.samples <= w.samples && c.samples <= n
    ensures c.samples == n || c.samples == w.samples
  {
    Waveform(w.audio, if n < w.samples then n else w.samples)
  }

  /** The detection probe: at most `SegmentLengthSec` seconds of audio. */
  function Probe(w: Waveform): Waveform {
    Clip(w, SegmentLengthSec * TargetSampleRate)
  }

  /** Length of the audio in seconds, exactly. */
  function Duration(w: Waveform): real {
    w.samples as real / TargetSampleRate as real
  }

  /** Decoding modes of the regional engine. */
  datatype Mode = Rnnt | Ctc

  /** One entry of the fallback engine's `segments` list; `None` where the
      `words` key is missing. */
  datatype WhisperSegment = WhisperSegment(words: Option<seq<WordRecord>>)

  /** The fallback engine's result dictionary; `None` where a key is missing. */
  datatype WhisperOutput = WhisperOutput(
    language: Option<string>,
    text: Option<string>,
    segments: Option<seq<WhisperSegment>>)

  /** The process-wide engine handles and audio loader.
      - `loaded`: both model handles are set;
      - `load(path)`: the waveform read from `path`, or the raised error;
      - `regional(wav, lang, mode)`: the regional engine's text (`None` for
        a `None` result), or the raised error;
      - `fallback(path, language, wordTimestamps)`: the fallback engine's
        result for the language hint and word-timestamp flag, or the raised
        error. */
  datatype Engines = Engines(
    loaded: bool,
    load: string -> Result<Waveform>,
    regional: (Waveform, string, Mode) -> Result<Option<string>>,
    fallback: (string, Option<string>, bool) -> Result<WhisperOutput>)

  /** The message both components raise when the engines are not loaded. */
  const ModelsNotLoaded: string := "Models not loaded"
}
