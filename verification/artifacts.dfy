/** The records the components hand to each other (`src/entity/artifacts.py`).
    Optional fields are Python's `Optional[...]`. */
module Artifacts {
  import opened Results

  /** One entry of a word-timestamp list: the dictionary
      `{"word": ..., "start": ..., "end": ...}`, times in seconds. */
  datatype WordRecord = WordRecord(word: string, start: real, end: real)

  datatype AudioExtractionArtifact = AudioExtractionArtifact(audioPath: string)

  datatype LanguageDetectionArtifact =
    LanguageDetectionArtifact(detectedLanguage: string, confidence: real, error: Option<string>)

  datatype TranscriptionArtifact = TranscriptionArtifact(
    transcription: Option<string>,
    wordTimestamps: Option<seq<WordRecord>>,
    modelUsed: string,
    error: Option<string>)

  datatype SrtGenerationArtifact = SrtGenerationArtifact(srtContent: string, srtFilePath: Option<string>)
}
