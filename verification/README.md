# Auto caption generator: a Dafny model of the captioning core

The service turns an uploaded video into a SubRip subtitle file. It extracts
the audio, decides the spoken language, transcribes it with one of two speech
engines and packs the timed words into subtitle cues. This project models the
decision and transformation logic of that service as pure Dafny functions and
proves properties about them:

- **The subtitle generator** (`SRTGenerator.generate`, `_format_timestamp`):
  - greedy packing of word records into cues;
  - the four-line SubRip layout of each cue;
  - truncating `HH:MM:SS,mmm` timecodes;
  - the output file name.
- **The language detector** (`LanguageDetector.detect`):
  - the heuristic score of each candidate language;
  - the first-maximum choice over the candidates;
  - the three-valued English probability from the fallback engine;
  - the five-row decision table;
  - the error artifact.
- **The transcriber** (`Transcriber.transcribe`):
  - engine choice by language code;
  - flattening of the fallback engine's per-segment word lists;
  - evenly spaced timestamps for the regional engine's words;
  - error artifacts.
- **The task pipeline** (`process_task` and the status handling of
  `upload_service`): one sequential transition of the task store per call.

The speech engines, audio loading, audio extraction, validation and file
deletion have no code in this model. They are passed in as function-typed
parameters (`SpeechEngines.Engines`, `Pipeline.Stages`), so every property
holds for every behaviour of them. Times and confidences are exact `real`s,
and every truncation is written with `.Floor`.

Files:

| file | module(s) | contents |
|---|---|---|
| results.dfy | `Results` | `Option`, `Result` (value or raised message), Python truthiness of an optional string |
| text.dfy | `Text` | Python `strip`, `split`, `join`, `lower`, `split("\n")` |
| numerals.dfy | `Numerals` | `str(n)` and `f"{n:0Wd}"`, and reading digits back |
| constants.dfy | `Constants` | the configuration constants |
| artifacts.dfy | `Artifacts` | word records and the four artifacts |
| engines.dfy | `SpeechEngines` | waveforms, engine answers, the engine handles |
| seqs.dfy | `Seqs` | concatenation of blocks (generic helpers) |
| timecode.dfy | `Timecode` | `_format_timestamp` and a reader for its output |
| srt_format.dfy | `SrtFormat`, `SrtLayout` | cue rendering and its line layout |
| srt_generator.dfy | `SrtGenerator` | packing, cues, file name, `generate` |
| language_detector.dfy | `LanguageDetector` | `detect` |
| transcriber.dfy | `Transcriber` | `transcribe` |
| pipeline.dfy | `Pipeline` | `process_task`, `upload_service` |

The packing loop is modelled twice, and the two are proved equal:

- `SrtGenerator.Scan` follows the loop step by step.
- `SrtGenerator.IsSegmentation` describes the result declaratively: the kept
  words are cut into consecutive cues. Each cue ends exactly where the break
  test first fires on it. The words still buffered at the end follow the cues.

`SegmentationUnique` shows that the declarative description admits one
answer. `SegmentCharacterised` shows that the loop computes it.

## Behaviour of the code a reader may not expect

The model follows the code in each of these cases, some of which the
code's own comments and names suggest otherwise:

- **When the fallback engine is asked.** It is asked when the best candidate
  score is below 80, not below the strong threshold of 60
  (`src/components/language_detector.py:62`). For a best score in 60–79 the
  engine's answer cannot change the decision (`StrongCandidateWins`). Its
  raised error still escapes and turns the detection into the Hindi failure
  artifact (`FallbackErrorEscapes`).
- **The word that breaks a cue belongs to that cue.** This holds whether the
  break comes from the character count, the duration or the end of the list
  (lines 32–39). For the words `hello` (0.0–0.4), `world` (0.4–0.9) and `foo`
  (4.9–5.3), the code gives one cue "hello world foo" from 0.0 to 5.3
  (`LastWordJoinsCue`), not two cues.
- **A trailing empty entry can drop words.** A trailing entry that strips to
  empty is skipped before the "last entry" test (lines 29–30, 37). The words
  still buffered are then never emitted (`TrailingBlankDropsWords`). Every
  word reaches a cue only when the last raw entry is not blank
  (`AllWordsEmitted`).
- **Cue times are only as ordered as the input.** Cue times are the raw
  times of their first and last words. "No cue ends before it starts" holds
  when every word ends no earlier than it starts and starts never decrease,
  even if words overlap (`CueTimeOrdered`). "Cues do not overlap" needs each
  word to end before the next one starts (`CuesDisjoint`).
- **Temporary files are deleted only on completion.** The failure paths
  return or raise first (`full_pipeline.py:81,90,105-110`). A failed deletion
  of the video skips the deletion of the audio.
- **Extraction and generation errors are re-raised** after the record is
  marked failed (line 116). Detection and transcription errors only mark it
  (lines 81, 90).
- **The status is never `pending`.** A record is created as `processing`.
- **An empty transcription message is not a failure.** A transcription error
  message that is the empty string is falsy. The pipeline then goes on to the
  generator, which raises for the missing word list
  (`BlankTranscriptionError`).

## Model

| member | source | states |
|---|---|---|
| Text.StripSpec | src/components/srt_generator.py:26 | `strip()` leaves no whitespace at either end |
| Text.Strip | src/components/srt_generator.py:26 | Python `strip()`; its contract is stated by `StripSpec`, `StripExact` and `StripKeepsStripped` |
| Text.TrimStartSpec | src/components/srt_generator.py:26 | the left strip removes exactly the leading whitespace run and returns the rest of the string |
| Text.TrimEndSpec | src/components/srt_generator.py:26 | the right strip removes exactly the trailing whitespace run and returns the start of the string |
| Text.StripExact | src/components/srt_generator.py:26 | `strip()` of whitespace + a stripped core + whitespace is that core |
| Text.StripKeepsStripped | src/components/srt_generator.py:47 | `strip()` leaves a string without surrounding whitespace unchanged |
| Text.SplitGivesWords | src/components/language_detector.py:45 | every piece of `split()` is non-empty and free of whitespace |
| Text.SplitSkipsSpace | src/components/language_detector.py:45 | `split()` ignores a leading run of whitespace of any kind and length |
| Text.SplitWord | src/components/language_detector.py:45 | a whitespace-free word ended by the text's end or by any whitespace is the first piece, the rest split on; with `Split("") == []` this fixes `split()` on every string |
| Text.SplitTabExample | src/components/language_detector.py:45 | `"a\tb"`, with a tab between the letters, splits into `a` and `b` |
| Text.Split | src/components/language_detector.py:45 | Python `split()` as the maximal whitespace-free runs; `SplitSkipsSpace`, `SplitWord` and `SplitGivesWords` state it |
| Text.SplitJoin | src/components/srt_generator.py:44 | words free of whitespace come back unchanged from `" ".join` followed by `split()` |
| Text.Join | src/components/srt_generator.py:44 | Python `sep.join`; `SplitJoin`, `JoinStripped` and `SplitOnJoin` state it |
| Text.JoinStripped | src/components/srt_generator.py:44-47 | a single-space join of stripped non-empty words is unchanged by `strip()` |
| Text.SplitOnJoin | src/components/srt_generator.py:52 | lines without `\n`, joined with `\n`, split back into the same lines |
| Text.LowerSpec | src/components/srt_generator.py:55 | `lower()` maps each character and leaves no capital |
| Text.Lower | src/components/srt_generator.py:55 | Python `lower()` on ASCII capitals; `LowerSpec` and `LowerFixes` state it |
| Text.LowerFixes | src/components/srt_generator.py:55 | `lower()` leaves a string without capitals unchanged, so it is idempotent |
| Numerals.DecimalDigits | src/components/srt_generator.py:47 | `str(n)` is a digit string with no leading zero that reads back as `n` |
| Numerals.Decimal | src/components/srt_generator.py:47 | `str(n)` of the cue number; `DecimalDigits` states it reads back |
| Numerals.PadIntReadsBack | src/components/srt_generator.py:74 | a non-negative field formatted with `0Wd` reads back as the number and is exactly W wide when it fits |
| Numerals.PadIntShape | src/components/srt_generator.py:74 | a formatted integer is all digits, with a leading minus sign for a negative number |
| Numerals.PadInt | src/components/srt_generator.py:74 | the `02d` and `03d` fields; `PadIntReadsBack` and `PadIntShape` state them |
| Timecode.FieldRanges | src/components/srt_generator.py:70-73 | minutes and seconds lie in [0,59], milliseconds in [0,999], and hours are non-negative for non-negative times |
| Timecode.Rem3600 | src/components/srt_generator.py:71 | Python's `seconds % 3600` on floats, with the sign of the divisor; `FieldRanges` bounds the fields read from it |
| Timecode.Rem60 | src/components/srt_generator.py:72 | Python's `seconds % 60`, never negative; `FieldRanges` and `FieldsSum` state the seconds read from it |
| Timecode.Rem1 | src/components/srt_generator.py:73 | Python's `seconds % 1`, the fraction in [0, 1); `FieldRanges` and `FieldsSum` state the milliseconds read from it |
| Timecode.Hours | src/components/srt_generator.py:70 | `int(seconds // 3600)`; bounded by `FieldRanges`, summed by `FieldsSum` |
| Timecode.Minutes | src/components/srt_generator.py:71 | `int((seconds % 3600) // 60)` with Python's non-negative remainder; `FieldRanges`, `FieldsSum` |
| Timecode.Seconds | src/components/srt_generator.py:72 | `int(seconds % 60)`; `FieldRanges`, `FieldsSum` |
| Timecode.Millis | src/components/srt_generator.py:73 | `int((seconds % 1) * 1000)`, truncated; `FieldRanges`, `FieldsSum` |
| Timecode.FieldsSum | src/components/srt_generator.py:70-73 | 3600·H + 60·M + S is the floor of the time, and with the milliseconds the floor of the time in ms (truncation, not rounding) |
| Timecode.TwoDigitField | src/components/srt_generator.py:74 | a field below 100 formatted with `02d` is two digits that read back as it |
| Timecode.ThreeDigitField | src/components/srt_generator.py:74 | a field below 1000 formatted with `03d` is three digits that read back as it |
| Timecode.FieldsParse | src/components/srt_generator.py:74 | fields written as `HH:MM:SS,mmm` read back as their total in milliseconds |
| Timecode.Parse | src/components/srt_generator.py:74 | an independent reader of the `HH:MM:SS,mmm` layout line 74 writes, the partner of `Format` in `FieldsParse` and `FormatParses` |
| Timecode.Format | src/components/srt_generator.py:69-74 | `_format_timestamp`; `FormatParses`, `FormatNoBreak` and `FormatExample` state it |
| Timecode.FormatParses | src/components/srt_generator.py:69-74 | below 100 hours a timecode is 12 characters and reads back as the time truncated to whole ms |
| Timecode.FormatNoBreak | src/components/srt_generator.py:74 | no timecode contains a line break |
| Timecode.FormatExample | src/components/srt_generator.py:69-74 | 3725.4567 s formats as `01:02:05,456` |
| SrtLayout.LinesCount | src/components/srt_generator.py:47 | every cue contributes exactly four lines |
| SrtFormat.CueText | src/components/srt_generator.py:44-47 | the stripped space-joined text of a cue; `CueTextIsJoin` and `CueTextSplits` state it |
| SrtFormat.CueLines | src/components/srt_generator.py:47 | the four lines a cue extends the output by; `LineAt`, `IndexLine`, `TimeLine`, `TextLine`, `BlankLine` state them |
| SrtFormat.Lines | src/components/srt_generator.py:41-50 | the lines of every cue in order; `LinesCount` and `LinesLayout` state their layout |
| SrtFormat.Render | src/components/srt_generator.py:52 | the `\n`-join of the lines; `RenderSplits` states it splits back into them |
| SrtLayout.LineAt | src/components/srt_generator.py:47 | line 4j+k is line k of cue j |
| SrtLayout.IndexLine | src/components/srt_generator.py:47 | line 4j is the number of cue j |
| SrtLayout.TimeLine | src/components/srt_generator.py:45-47 | line 4j+1 is `start --> end` of cue j |
| SrtLayout.TextLine | src/components/srt_generator.py:47 | line 4j+2 is the stripped text of cue j |
| SrtLayout.BlankLine | src/components/srt_generator.py:47 | line 4j+3 is blank |
| SrtLayout.LinesLayout | src/components/srt_generator.py:47 | cue j occupies lines 4j to 4j+3: index, time range, text, blank |
| SrtLayout.TextNoBreak | src/components/srt_generator.py:44-47 | a cue text has no line break when its words have none |
| SrtLayout.RangeNoBreak | src/components/srt_generator.py:45-47 | no time-range line has a line break |
| SrtLayout.IndexNoBreak | src/components/srt_generator.py:47 | no cue number has a line break |
| SrtLayout.CueLinesNoBreak | src/components/srt_generator.py:47 | none of a cue's four lines has a line break when its words have none |
| SrtLayout.LinesNoBreak | src/components/srt_generator.py:47 | no rendered line has a line break when no cue word has one |
| SrtLayout.RenderSplits | src/components/srt_generator.py:47-52 | splitting the `\n`-joined content gives back exactly the four lines per cue |
| SrtGenerator.StripWords | src/components/srt_generator.py:26-28 | each entry's word is stripped and its times are kept |
| SrtGenerator.KeptFromSound | src/components/srt_generator.py:25-30 | every packed word comes from a non-blank entry at or after the scan position |
| SrtGenerator.KeptFromIncreasing | src/components/srt_generator.py:25-30 | packed words keep the order of their entries, and each entry is used at most once |
| SrtGenerator.KeptFromHas | src/components/srt_generator.py:29-32 | every non-blank entry yields a packed word |
| SrtGenerator.KeptFrom | src/components/srt_generator.py:25-30 | the non-blank stripped entries from a position on; `KeptFromSound`, `KeptFromIncreasing`, `KeptFromHas` state it |
| SrtGenerator.Kept | src/components/srt_generator.py:25-30 | the words that take part in packing; `KeptTokens` and `KeptEndsWithLast` state it |
| SrtGenerator.KeptTokens | src/components/srt_generator.py:25-33 | packing sees every entry whose stripped word is non-empty, with its times, once each and in raw order, and no blank entry |
| SrtGenerator.KeptEndsWithLast | src/components/srt_generator.py:37 | when the last raw entry is not blank, it is the last packed word |
| SrtGenerator.WidthAppend | src/components/srt_generator.py:33 | appending a word adds its length plus one to the character count |
| SrtGenerator.Width | src/components/srt_generator.py:33 | the running `len(word) + 1` count of a buffer; `WidthAppend` states it |
| SrtGenerator.Closes | src/components/srt_generator.py:35-39 | the break test on a buffer whose last word was just appended; `AppendToken` states it |
| SrtGenerator.GroupOk | src/components/srt_generator.py:35-41 | a cue ends where the break test first fires; `ClosedPrefix` and `FirstCueAgrees` use it |
| SrtGenerator.IsSegmentation | src/components/srt_generator.py:35-50 | the declarative account of the packing; `SegmentationUnique` shows it admits one answer |
| SrtGenerator.AppendToken | src/components/srt_generator.py:32-39 | the buffer with a word appended closes exactly when the character, last-entry or duration test fires |
| SrtGenerator.ScanSegments | src/components/srt_generator.py:25-50 | loop invariant: from an open buffer whose count is its width, the rest of the loop completes a segmentation |
| SrtGenerator.Scan | src/components/srt_generator.py:25-50 | the loop, from a position with a buffer and a count; `ScanSegments` is its invariant |
| SrtGenerator.Segment | src/components/srt_generator.py:25-50 | the loop over a whole list; `SegmentIsSegmentation` and `SegmentCharacterised` state it |
| SrtGenerator.BreakStep | src/components/srt_generator.py:41-50 | emitting a closed buffer and restarting with an empty buffer and count 0 extends the segmentation |
| SrtGenerator.ConsSegmentation | src/components/srt_generator.py:41-50 | a closed cue placed in front of a segmentation extends it |
| SrtGenerator.SegmentIsSegmentation | src/components/srt_generator.py:25-50 | the loop's cues and leftover buffer form a segmentation of the packed words |
| SrtGenerator.ClosedPrefix | src/components/srt_generator.py:35-41 | a cue cannot end before the break test first fires on its words |
| SrtGenerator.PendingHasNoCue | src/components/srt_generator.py:35-41 | no cue can be cut from the words left buffered |
| SrtGenerator.SplitFirst | src/components/srt_generator.py:41-50 | a segmentation with a cue starts with that cue, and the rest is a segmentation of the remaining words |
| SrtGenerator.FirstCueAgrees | src/components/srt_generator.py:35-50 | two segmentations of the same words share their first cue |
| SrtGenerator.NoCueFirst | src/components/srt_generator.py:35-50 | when one segmentation has no cue, neither has any other |
| SrtGenerator.SegmentationUnique | src/components/srt_generator.py:35-50 | a word list has exactly one segmentation |
| SrtGenerator.SegmentCharacterised | src/components/srt_generator.py:25-50 | the loop's result is the one segmentation of the packed words |
| SrtGenerator.NothingPending | src/components/srt_generator.py:37-41 | when the last packed word is the last raw entry, no word stays buffered |
| SrtGenerator.AllWordsEmitted | src/components/srt_generator.py:25-51 | when the last raw entry is not blank, the cues hold every packed word exactly once, in order |
| SrtGenerator.KeptWordsOk | src/components/srt_generator.py:26-30 | every packed word is stripped and non-empty |
| SrtGenerator.GroupWordsOk | src/components/srt_generator.py:26-32 | every word of every cue is stripped and non-empty |
| SrtGenerator.Words | src/components/srt_generator.py:44 | a cue's word list lists its packed words in order |
| SrtGenerator.CuesFrom | src/components/srt_generator.py:41-48 | one cue per emitted buffer |
| SrtGenerator.CuesFromAt | src/components/srt_generator.py:23-48 | cue j of the list is the cue for buffer j, numbered first + j |
| SrtGenerator.CueOf | src/components/srt_generator.py:42-44 | the cue for a buffer: first start, last end, its words; `CuesFaithful` states it |
| SrtGenerator.Cues | src/components/srt_generator.py:23-48 | the numbered cues of a list; `CuesFaithful`, `CuesTimeOrdered` and `AllWordsEmitted` state them |
| SrtGenerator.CueTextIsJoin | src/components/srt_generator.py:44-47 | the text of a cue over stripped words is those words joined by single spaces |
| SrtGenerator.CuesFaithful | src/components/srt_generator.py:23-48 | cue j is numbered j+1, starts at its first word's start, ends at its last word's end, and its text is its words joined by single spaces |
| SrtGenerator.CueTextSplits | src/components/srt_generator.py:44-47 | a cue text splits on whitespace back into exactly the cue's words |
| SrtGenerator.StripKeepsTimes | src/components/srt_generator.py:26-28 | stripping the words keeps a time-ordered list time-ordered |
| SrtGenerator.KeptTimes | src/components/srt_generator.py:27-32 | packed words of time-ordered input keep their times in order |
| SrtGenerator.GroupInKept | src/components/srt_generator.py:32-49 | cue j's words are a contiguous run of the packed words, right after the words of the earlier cues |
| SrtGenerator.TimeOrderedStarts | src/components/srt_generator.py:42-43 | input whose words do not overlap also has ordered starts |
| SrtGenerator.OverlapStartsOrdered | src/components/srt_generator.py:42-43 | overlapping words (a 0–2, b 1–1.5) have ordered starts but are not time-ordered |
| SrtGenerator.StripKeepsStarts | src/components/srt_generator.py:26-28 | stripping the words keeps the starts ordered |
| SrtGenerator.KeptStarts | src/components/srt_generator.py:27-32 | packed words of input with ordered starts keep their starts in order, each ending no earlier than it starts |
| SrtGenerator.CueTimeOrdered | src/components/srt_generator.py:42-43 | when each word ends no earlier than it starts and starts never decrease, a cue ends no earlier than it starts; overlapping words are allowed |
| SrtGenerator.CuesDisjoint | src/components/srt_generator.py:42-43 | for time-ordered input a cue ends no later than the next one starts |
| SrtGenerator.CuesTimeOrdered | src/components/srt_generator.py:42-48 | for time-ordered input no cue ends before it starts, and cues do not overlap |
| SrtGenerator.LabelIsLower | src/components/srt_generator.py:55 | a file-name language label has no capital letter |
| SrtGenerator.LanguageLabel | src/components/srt_generator.py:55 | `english`, the lower-cased known name, or the lower-cased code; `LabelIsLower` and the `LabelOf` examples state it |
| SrtGenerator.FileName | src/components/srt_generator.py:56 | the file name starts with `subtitles_`, ends with `.srt`, and its length is the sum of its parts |
| SrtGenerator.FileNameParts | src/components/srt_generator.py:56 | the file name is `subtitles_`, the video name, `_`, the label and `.srt`, each at its place |
| SrtGenerator.FileNameInjective | src/components/srt_generator.py:56 | two different videos never share a file name for the same language |
| SrtGenerator.LabelOfEnglish | src/components/srt_generator.py:55 | `en` is labelled `english`, while `EN` is only lower-cased |
| SrtGenerator.LabelOfKnownCode | src/components/srt_generator.py:55 | `hi` is labelled `hindi`, which is also the label of the unknown code `Hindi` |
| SrtGenerator.LabelOfTamil | src/components/srt_generator.py:55 | `ta` is labelled `tamil` |
| SrtGenerator.FileNameExample | src/components/srt_generator.py:55-56 | a Tamil video `talk` gets `subtitles_talk_tamil.srt` |
| SrtGenerator.SrtPath | src/components/srt_generator.py:57 | the file name under the output directory; `Generate` states the path it returns |
| SrtGenerator.Generate | src/components/srt_generator.py:15-63 | raises `No word timestamps provided` exactly when the list is missing or empty, and otherwise returns the path under the output directory |
| SrtGenerator.GroupWordsFromEntries | src/components/srt_generator.py:26-32 | every cue word is the stripped word of some raw entry |
| SrtGenerator.CueWordsNoBreak | src/components/srt_generator.py:26-47 | raw words without line breaks give cue words without them |
| SrtGenerator.GenerateLayout | src/components/srt_generator.py:41-52 | line by line, the file holds 4 lines per cue: number j+1, first start `-->` last end, the words joined, and a blank |
| SrtGenerator.LongWordsStripped | src/components/srt_generator.py:26 | stripping leaves the three example words unchanged |
| SrtGenerator.LongWordsSegment | src/components/srt_generator.py:25-50 | the three example words pack into one group and leave nothing buffered |
| SrtGenerator.LastWordJoinsCue | src/components/srt_generator.py:32-39 | hello/world/foo spanning 5.3 s form one cue from 0.0 to 5.3 |
| SrtGenerator.TrailingBlankDropsWords | src/components/srt_generator.py:29-37 | a trailing blank entry leaves the buffered word unemitted |
| SpeechEngines.Clip | src/components/language_detector.py:34-35 | the probe is the first min(n, length) samples |
| SpeechEngines.Probe | src/components/language_detector.py:34-35 | the detection probe, at most `segment_length_sec` seconds of the loaded audio; `Clip` states what it keeps |
| SpeechEngines.Duration | src/components/transcriber.py:41 | the audio length in seconds, samples over the target rate; `RegionalPath` spreads the words over it |
| LanguageDetector.TextScoreZero | src/components/language_detector.py:42-53 | a transcription scores 0 exactly when it is missing, has at most 3 stripped characters, fewer than 2 words or fewer than 8 characters; otherwise at least 54 > 25 |
| LanguageDetector.UniqueChars | src/components/language_detector.py:46 | the distinct characters of the text other than the plain space; `TextScoreZero` uses it for its lower bound |
| LanguageDetector.TextScore | src/components/language_detector.py:42-53 | the score of a transcription; `TextScoreZero` states when it is 0 |
| LanguageDetector.Transcript | src/components/language_detector.py:41 | rnnt, then ctc on an empty answer; `CtcOnlyAfterEmptyRnnt` states it |
| LanguageDetector.CandidateScore | src/components/language_detector.py:40-55 | a candidate's score, 0 when the engine raises; `ScoreAll` collects them |
| LanguageDetector.CtcOnlyAfterEmptyRnnt | src/components/language_detector.py:41 | the ctc mode is asked only after rnnt answers with nothing or an empty text |
| LanguageDetector.ScoreAll | src/components/language_detector.py:38-55 | one entry per candidate language, in candidate order, carrying that language's own score |
| LanguageDetector.RunScores | src/components/language_detector.py:34-55 | the candidate scores of a run on the probe of the loaded audio; `Detect`'s error condition and `DetectSucceeds` are stated over it |
| LanguageDetector.FirstMax | src/components/language_detector.py:57 | the chosen candidate has the highest score, and every earlier one scores strictly less |
| LanguageDetector.FirstMaxUnique | src/components/language_detector.py:57 | only the first position with the highest score is chosen |
| LanguageDetector.BestScoreIsMax | src/components/language_detector.py:57-58 | the best score bounds every score and belongs to the best language, which is None only without candidates |
| LanguageDetector.BestLanguage | src/components/language_detector.py:57 | the first highest-scoring candidate; `FirstMax`, `FirstMaxUnique` and `BestScoreIsMax` state it |
| LanguageDetector.BestScore | src/components/language_detector.py:58 | its score, 0 without candidates; `BestScoreIsMax` states it |
| LanguageDetector.EnglishProb | src/components/language_detector.py:64-71 | 0.8 exactly for the tag `en` with more than 10 stripped characters of text, 0.3 exactly for a shorter `en` text, 0.2 exactly for any other or missing tag |
| LanguageDetector.EnglishStep | src/components/language_detector.py:60-71 | the fallback probability, asked only below 80; `FallbackSkipped` and `FallbackErrorEscapes` state it |
| LanguageDetector.Confidence | src/components/language_detector.py:76-82 | min(1, score/150): in [0,1], score/150 below 150 and 1 from 150 on |
| LanguageDetector.Row | src/components/language_detector.py:74-88 | the first-match table as a partition: row 1 exactly for a score of at least 60; row 3 exactly for 25–59 whatever the probability; below 25 row 2 from a probability of 0.6, row 4 for (0.3, 0.6), row 5 up to 0.3 |
| LanguageDetector.RowFourUnreachable | src/components/language_detector.py:61-88 | with the configured thresholds the `english_prob > 0.3` row never fires |
| LanguageDetector.StrongCandidateWins | src/components/language_detector.py:74-76 | a best score of at least 60 picks the best language with confidence min(1, score/150), whatever the English probability |
| LanguageDetector.DefaultIsHindi | src/components/language_detector.py:86-88 | without signal the decision is Hindi with confidence 0.3 |
| LanguageDetector.Decide | src/components/language_detector.py:73-88 | the decision table; `StrongCandidateWins`, `DefaultIsHindi`, `DecisionBounds` state it |
| LanguageDetector.DecisionBounds | src/components/language_detector.py:74-88 | the decision is a candidate, `en` or `hi`, with confidence in [0,1] |
| LanguageDetector.Detect | src/components/language_detector.py:20-95 | without models or with an unloadable file, the Hindi failure artifact with the message; every error gives (`hi`, 0.0); an error exactly when models are missing, loading fails or the fallback engine raises; a success names a test language, `en` or `hi` with confidence in [0,1] |
| LanguageDetector.Failure | src/components/language_detector.py:93-95 | the failure artifact: Hindi, confidence 0 and the message; `Detect` returns it exactly on an error |
| LanguageDetector.DetectSucceeds | src/components/language_detector.py:73-91 | an uninterrupted detection returns the decision table's language and confidence with no error |
| LanguageDetector.FallbackSkipped | src/components/language_detector.py:61-62 | with a best score of 80 or more the fallback engine's behaviour does not matter |
| LanguageDetector.FallbackErrorEscapes | src/components/language_detector.py:62-95 | below 80 a raised fallback error becomes the failure artifact |
| LanguageDetector.EnglishWhenNoCandidateScores | src/components/language_detector.py:61-79 | when no candidate scores and the fallback hears over 10 characters of English, the result is (`en`, 0.8) |
| LanguageDetector.StrongCandidateExample | src/components/language_detector.py:57-76 | candidates scoring 0, 90 and 90 give the first 90-scorer with confidence 0.6 |
| Transcriber.FlattenAppend | src/components/transcriber.py:29-31 | flattening concatenates the segments' word lists in segment order |
| Transcriber.FlattenOne | src/components/transcriber.py:31 | a segment flattens to its word list, or to nothing without one |
| Transcriber.Flatten | src/components/transcriber.py:29-31 | the segments' word lists in order; `FlattenAppend` and `FlattenOne` state it |
| Transcriber.Slots | src/components/transcriber.py:44-51 | one slot per word |
| Transcriber.SlotAt | src/components/transcriber.py:44-51 | slot k carries word k and spans k to k+1 steps from the start time |
| Transcriber.SlotsChain | src/components/transcriber.py:44-51 | slots start at the start time, each lasts one step, each begins where the previous ends, and the last ends n steps later |
| Transcriber.SynthesisedSlots | src/components/transcriber.py:41-51 | one record per word, unchanged and in order; first start 0, each lasts d/n, contiguous, last end d |
| Transcriber.Synthesise | src/components/transcriber.py:41-51 | evenly spread word timestamps; `SynthesisedSlots` and `EmptyTranscription` state them |
| Transcriber.Transcribe | src/components/transcriber.py:20-59 | without models, the failure artifact; an error exactly when no engine is named, and then no text or timestamps; `Whisper` exactly for a successful `en`, `IndicConformer` for any other code |
| Transcriber.Failure | src/components/transcriber.py:57-59 | the failure artifact: no text, no timestamps, no engine name, the message; `Transcribe` ties the error to the empty engine name |
| Transcriber.RegionalPath | src/components/transcriber.py:34-52 | on the regional path a text with words comes back unchanged with one timestamp per word, first start 0, each lasting d/n, back to back, last end the audio duration d |
| Transcriber.WhisperPath | src/components/transcriber.py:26-32 | on the English path the text is the engine's, and the timestamps are the flattened segment words |
| Transcriber.EmptyTranscription | src/components/transcriber.py:40-55 | an absent, empty or blank regional text is returned unchanged with no timestamps and no error |
| Transcriber.RnntOnly | src/components/transcriber.py:40 | only the rnnt mode is asked |
| Pipeline.NewRecord | src/pipeline/full_pipeline.py:30-38 | a new record is `processing`, with no error or file path, and keeps the video path |
| Pipeline.Fail | src/pipeline/full_pipeline.py:112-114 | the record marked failed with the message and made consistent; every other field is unchanged |
| Pipeline.Consistent | src/pipeline/full_pipeline.py:112-114 | a record is failed exactly when it carries an error; `NewRecord` and `ProcessFresh` keep it |
| Pipeline.StatusName | src/pipeline/full_pipeline.py:31-98 | the `status` strings `processing`, `completed` and `failed`; the response of `UploadSucceedsIffNotFailed` carries it |
| Pipeline.KeyErrorMessage | src/pipeline/full_pipeline.py:113 | the text of the `KeyError` the handler raises for an unknown id; `ProcessTask` raises it and writes nothing |
| Pipeline.ComponentStages | src/pipeline/full_pipeline.py:71-94 | the stages wired to the component models; `NotLoadedFails`, `BlankTranscriptionError` and `ComponentsComplete` are stated over it |
| Pipeline.Cleanup | src/pipeline/full_pipeline.py:106-110 | the video is always tried first; the audio is tried exactly when deleting the video succeeds |
| Pipeline.ProcessTask | src/pipeline/full_pipeline.py:63-116 | only the task's record changes; an unknown id raises and writes nothing; a raise leaves the record failed with that message |
| Pipeline.ProcessFresh | src/pipeline/full_pipeline.py:63-116 | a fresh task ends failed with a message or completed without one, never processing; files are deleted only on completion, video first |
| Pipeline.ExtractionFailure | src/pipeline/full_pipeline.py:71-116 | an extraction error fails the task with that message and re-raises it; no later stage matters |
| Pipeline.DetectionFailure | src/pipeline/full_pipeline.py:77-81 | a detection error fails the task with its message without raising; transcription, generation and cleanup do not matter |
| Pipeline.TranscriptionFailure | src/pipeline/full_pipeline.py:86-90 | a transcription error fails the task with its message without raising; generation and cleanup do not matter |
| Pipeline.GenerationFailure | src/pipeline/full_pipeline.py:93-116 | a generation error fails the task with that message and re-raises it, with no deletion |
| Pipeline.Completion | src/pipeline/full_pipeline.py:93-110 | success completes the record with transcription, language, engine and file path, keeps error and video path, and deletes the files |
| Pipeline.CleanupInvisible | src/pipeline/full_pipeline.py:105-110 | deletion failures never change the store or the raised error |
| Pipeline.BlankTranscriptionError | src/pipeline/full_pipeline.py:87-94 | an empty transcription error message lets the task reach the generator, which fails it for the missing words |
| Pipeline.NotLoadedFails | src/pipeline/full_pipeline.py:77-81 | without loaded models the task fails with `Models not loaded` and nothing is raised |
| Pipeline.ComponentsComplete | src/pipeline/full_pipeline.py:93-103 | a completed task's file path is named after its video and language, and its engine is Whisper exactly for `en` |
| Pipeline.LastIndex | src/pipeline/full_pipeline.py:19 | the position of the last occurrence of a character, or -1 |
| Pipeline.SplitExt | src/pipeline/full_pipeline.py:19 | stem + extension is the name; the extension is empty or a dot with no further dot or slash, preceded in the last component by a non-dot; and whenever the last component has such a dot, the extension is non-empty |
| Pipeline.LastDotSplits | src/pipeline/full_pipeline.py:19 | any dot of the last component with a non-dot before it makes the last dot of the name one too |
| Pipeline.SplitExtOfVideo | src/pipeline/full_pipeline.py:19 | `talk.mp4` gives the video name `talk` |
| Pipeline.SplitExtLastDot | src/pipeline/full_pipeline.py:19 | only the last extension is split off |
| Pipeline.SplitExtNone | src/pipeline/full_pipeline.py:19 | a leading dot or a missing dot gives no extension |
| Pipeline.Upload | src/pipeline/full_pipeline.py:15-61 | a rejected upload raises and touches only a colliding record; an accepted one adds its task; other tasks are untouched |
| Pipeline.UploadSucceedsIffNotFailed | src/pipeline/full_pipeline.py:43-61 | an accepted upload returns the success response exactly when the task did not fail, and then it is completed; otherwise the task is left failed with a message |

## Left out

- Audio extraction, audio loading, downmixing and resampling: the audio is a
  path or an opaque waveform with a sample count (`SpeechEngines.Waveform`).
  The extractor's outcome and the loader are parameters.
- The IndicConformer and Whisper models are function parameters.
- File writing, directory creation, temporary files, `uuid`, logging and the
  FastAPI routes: the task id and temporary path are parameters of `Upload`.
  The file `Generate` would write is only named (its path) and rendered (its
  content).
- `validate_uploaded_file` is not part of this model: its verdict is the
  parameter `rejected` of `Upload`.
- `os.unlink` is the parameter `unlink` (success or failure). Only the
  attempted deletions are recorded.
- Pipeline.Upload: the text of the two `CustomException`s raised in
  `upload_service` (`full_pipeline.py:47`, `:61`) is the parameter
  `describe`, because the formatting of `CustomException` is not part of
  this model. The components' own `CustomException`s are taken as their
  bare message, as the next three lines say.
- SrtGenerator.Generate: the `CustomException` raised for a missing word
  list (`srt_generator.py:18`) is carried as the bare message `No word
  timestamps provided`. The re-wrap of every error in `CustomException(e,
  sys)` at line 67 is taken as the identity. `Pipeline.BlankTranscriptionError`
  therefore states that bare text as the stored error.
- LanguageDetector.Detect: the `Models not loaded` exception
  (`language_detector.py:24`) is stored by `str(e)` at line 95 as its bare
  message. `Pipeline.NotLoadedFails` therefore states that bare text as the
  stored error.
- Transcriber.Transcribe: the `Models not loaded` exception
  (`transcriber.py:24`) is stored by `str(e)` at line 59 as its bare message.
- Floating point: times, durations, confidences and slot lengths are exact
  reals. The binary rounding of `seconds % 1`, of `score / 150` and of the
  running `current_time` sum is not modelled.
- Text.LowerSpec: `lower()` is modelled for ASCII letters only. Other
  letters are left as they are.
- Missing keys in word dictionaries (`.get("word", "")`, the time defaults)
  are not modelled. Both producers always set all three keys, so a
  `WordRecord` always has them.
- Pipeline.ProcessTask: for an unknown task id the raised message is modelled
  as the id in single quotes (Python's `KeyError` from the handler). This
  ignores Python's choice of double quotes for ids that contain a single
  quote.
- Concurrent requests sharing `task_data`: each call is one sequential
  transition.
- The dictionary semantics of `language_scores` for repeated candidate codes:
  the candidate list has no duplicates.
- The configuration entities: the constants are used directly.
