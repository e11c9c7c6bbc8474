/** The configuration constants of the service (`src/constants/__init__.py`),
    as the components read them through their configuration entities. */
module Constants {

  const OutputDir: string := "artifacts"
  const SrtFilenamePrefix: string := "subtitles_"
  const SrtExtension: string := ".srt"

  const TargetSampleRate: nat := 16000
  const SegmentLengthSec: nat := 20

  const StrongIndianThreshold: nat := 60
  const WeakIndianThreshold: nat := 25
  const EnglishThreshold: real := 0.6

  const MaxCharsPerLine: nat := 50
  const MaxDurationSec: real := 5.0

  /** Language code to display name for the languages the regional engine
      supports. */
  const IndicLanguages: map<string, string> := map[
    "as" := "Assamese",
    "bn" := "Bengali",
    "brx" := "Bodo",
    "doi" := "Dogri",
    "gu" := "Gujarati",
    "hi" := "Hindi",
    "kn" := "Kannada",
    "kok" := "Konkani",
    "ks" := "Kashmiri",
    "mai" := "Maithili",
    "ml" := "Malayalam",
    "mni" := "Manipuri",
    "mr" := "Marathi",
    "ne" := "Nepali",
    "or" := "Odia",
    "pa" := "Punjabi",
    "sa" := "Sanskrit",
    "sat" := "Santali",
    "sd" := "Sindhi",
    "ta" := "Tamil",
    "te" := "Telugu",
    "ur" := "Urdu"
  ]

  /** The candidate languages the detector scores, in scoring order. */
  const TestLanguages: seq<string> := ["te", "hi", "ta", "ml", "kn", "mr", "gu", "bn", "ur", "pa"]
}
