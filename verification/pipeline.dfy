/** `process_task` and `upload_service` (`src/pipeline/full_pipeline.py`):
    one sequential transition of the task store per call. The four stages
    are parameters, so the properties hold for every behaviour of them;
    `ComponentStages` plugs in the models of the components. */
module Pipeline {
  import opened Results
  import opened Text
  import opened Artifacts
  import opened SpeechEngines
  import opened LanguageDetector
  import opened Transcriber
  import opened SrtGenerator

  /** The values the `status` field takes. */
  datatype Status = Processing | Completed | Failed

  function StatusName(s: Status): string {
    match s
    case Processing => "processing"
    case Completed => "completed"
    case Failed => "failed"
  }

  /** A `task_data` entry. */
  datatype TaskRecord = TaskRecord(
    status: Status,
    transcription: Option<string>,
    language: Option<string>,
    modelUsed: Option<string>,
    srtFilePath: Option<string>,
    error: Option<string>,
    videoPath: string)

  type Store = map<string, TaskRecord>

  /** Lines 30-38: a fresh record for the saved upload. */
  function NewRecord(videoPath: string): (r: TaskRecord)
    ensures r.status == Processing && r.error.None? && r.srtFilePath.None? && Consistent(r)
    ensures r.transcription.None? && r.language.None? && r.modelUsed.None?
    ensures r.videoPath == videoPath
  {
    TaskRecord(Processing, None, None, None, None, None, videoPath)
  }

  /** Lines 79-80, 88-89 and 113-114: the record marked failed with a
      message; nothing else changes. */
  function Fail(rec: TaskRecord, message: string): (r: TaskRecord)
    ensures Consistent(r) && r.status == Failed && r.error == Some(message)
    ensures r.(status := rec.status, error := rec.error) == rec
  {
    rec.(status := Failed, error := Some(message))
  }

  /** The stages `process_task` runs:
      - `extract(video)`: the extracted audio, or the raised error;
      - `detect(audio)`, `transcribe(audio, language)`: artifacts, which
        carry their own errors;
      - `generate(words, task, language, video name)`: the SubRip artifact,
        or the raised error;
      - `unlink(path)`: whether deleting the file succeeded. */
  datatype Stages = Stages(
    extract: string -> Result<AudioExtractionArtifact>,
    detect: string -> LanguageDetectionArtifact,
    transcribe: (string, string) -> TranscriptionArtifact,
    generate: (Option<seq<WordRecord>>, string, string, string) -> Result<SrtGenerationArtifact>,
    unlink: string -> bool)

  /** The stages as the service wires them: the component models over the
      loaded engines. */
  function ComponentStages(e: Engines, extract: string -> Result<AudioExtractionArtifact>, unlink: string -> bool): Stages {
    Stages(
      extract,
      (audio: string) => Detect(e, audio),
      (audio: string, language: string) => Transcribe(e, audio, language),
      (words: Option<seq<WordRecord>>, task: string, language: string, video: string) => Generate(words, task, language, video),
      unlink)
  }

  /** The store after the call, the message of the exception it raised (if
      any), and the files it tried to delete, in order. */
  datatype ProcessOutcome = ProcessOutcome(store: Store, raised: Option<string>, deletions: seq<string>)

  /** `str(KeyError(task_id))`: a lookup of an unknown id in the handler of
      line 113 raises this instead of the message of line 66. */
  function KeyErrorMessage(id: string): string {
    "'" + id + "'"
  }

  /** Lines 106-110: the video is deleted first; when that fails the audio
      is not tried, and no failure escapes. */
  function Cleanup(st: Stages, videoPath: string, audioPath: string): (ds: seq<string>)
    ensures ds == [videoPath] || ds == [videoPath, audioPath]
    ensures ds == [videoPath, audioPath] <==> st.unlink(videoPath)
  {
    if st.unlink(videoPath) then [videoPath, audioPath] else [videoPath]
  }

  /** `process_task(task_id, task_data, video_name)`. Only the record of
      `id` ever changes, and the store keeps its ids. */
  function ProcessTask(store: Store, id: string, videoName: string, st: Stages): (r: ProcessOutcome)
    ensures r.store.Keys == store.Keys
    ensures forall k :: k in store && k != id ==> r.store[k] == store[k]
    ensures id !in store ==> r == ProcessOutcome(store, Some(KeyErrorMessage(id)), [])
    ensures id in store ==> r.store[id].videoPath == store[id].videoPath
    ensures id in store && r.raised.Some? ==>
      r.store[id].status == Failed && r.store[id].error == r.raised
  {
    if id !in store then ProcessOutcome(store, Some(KeyErrorMessage(id)), [])
    else
      var rec := store[id];
      match st.extract(rec.videoPath)
      case Err(m) => ProcessOutcome(store[id := Fail(rec, m)], Some(m), [])
      case Ok(audio) =>
        var detection := st.detect(audio.audioPath);
        if Truthy(detection.error) then
          ProcessOutcome(store[id := Fail(rec, detection.error.value)], None, [])
        else
          var language := detection.detectedLanguage;
          var transcription := st.transcribe(audio.audioPath, language);
          if Truthy(transcription.error) then
            ProcessOutcome(store[id := Fail(rec, transcription.error.value)], None, [])
          else
            match st.generate(transcription.wordTimestamps, id, language, videoName)
            case Err(m) => ProcessOutcome(store[id := Fail(rec, m)], Some(m), [])
            case Ok(srt) =>
              var done := rec.(
                status := Completed,
                transcription := transcription.transcription,
                language := Some(language),
                modelUsed := Some(transcription.modelUsed),
                srtFilePath := srt.srtFilePath);
              ProcessOutcome(store[id := done], None, Cleanup(st, rec.videoPath, audio.audioPath))
  }

  /** A record's status and error agree: failed exactly when it carries a
      message. */
  predicate Consistent(rec: TaskRecord) {
    rec.status == Failed <==> rec.error.Some?
  }

  /** From a fresh record the task ends failed with a message, or completed
      with its file path and no message; it never stays processing. Files
      are deleted only on completion, and the video always first. */
  lemma ProcessFresh(store: Store, id: string, videoName: string, st: Stages)
    requires id in store && store[id].status == Processing && store[id].error.None?
    ensures var r := ProcessTask(store, id, videoName, st);
      && r.store[id].status != Processing
      && Consistent(r.store[id])
      && (r.deletions != [] <==> r.store[id].status == Completed)
      && (r.deletions != [] ==> r.deletions[0] == store[id].videoPath)
      && (r.store[id].status == Completed ==> r.raised.None?)
  {
  }

  /** An extraction error fails the task with that message and re-raises it,
      and no later stage is asked: the outcome is the same whatever they
      would do. */
  lemma ExtractionFailure(store: Store, id: string, videoName: string, st1: Stages, st2: Stages)
    requires id in store && st1.extract(store[id].videoPath).Err?
    requires st2.extract == st1.extract
    ensures var m := st1.extract(store[id].videoPath).error;
      var r := ProcessTask(store, id, videoName, st1);
      && r == ProcessTask(store, id, videoName, st2)
      && r.store[id] == store[id].(status := Failed, error := Some(m))
      && r.raised == Some(m) && r.deletions == []
  {
  }

  /** A detection error fails the task with the detector's message, without
      raising; transcription, generation and cleanup are never reached. */
  lemma DetectionFailure(store: Store, id: string, videoName: string, st1: Stages, st2: Stages, audio: AudioExtractionArtifact)
    requires id in store && st1.extract(store[id].videoPath) == Ok(audio)
    requires Truthy(st1.detect(audio.audioPath).error)
    requires st2 == st1.(transcribe := st2.transcribe, generate := st2.generate, unlink := st2.unlink)
    ensures var r := ProcessTask(store, id, videoName, st1);
      && r == ProcessTask(store, id, videoName, st2)
      && r.store[id] == Fail(store[id], st1.detect(audio.audioPath).error.value)
      && r.raised.None? && r.deletions == []
  {
  }

  /** A transcription error fails the task with the transcriber's message,
      without raising; generation and cleanup are never reached. */
  lemma TranscriptionFailure(store: Store, id: string, videoName: string, st1: Stages, st2: Stages,
      audio: AudioExtractionArtifact)
    requires id in store && st1.extract(store[id].videoPath) == Ok(audio)
    requires !Truthy(st1.detect(audio.audioPath).error)
    requires Truthy(st1.transcribe(audio.audioPath, st1.detect(audio.audioPath).detectedLanguage).error)
    requires st2 == st1.(generate := st2.generate, unlink := st2.unlink)
    ensures var t := st1.transcribe(audio.audioPath, st1.detect(audio.audioPath).detectedLanguage);
      var r := ProcessTask(store, id, videoName, st1);
      && r == ProcessTask(store, id, videoName, st2)
      && r.store[id] == Fail(store[id], t.error.value)
      && r.raised.None? && r.deletions == []
  {
  }

  /** A generation error fails the task with that message and re-raises it;
      cleanup is never reached. */
  lemma GenerationFailure(store: Store, id: string, videoName: string, st: Stages,
      audio: AudioExtractionArtifact, m: string)
    requires id in store && st.extract(store[id].videoPath) == Ok(audio)
    requires !Truthy(st.detect(audio.audioPath).error)
    requires var t := st.transcribe(audio.audioPath, st.detect(audio.audioPath).detectedLanguage);
      && !Truthy(t.error)
      && st.generate(t.wordTimestamps, id, st.detect(audio.audioPath).detectedLanguage, videoName) == Err(m)
    ensures var r := ProcessTask(store, id, videoName, st);
      && r.store[id] == Fail(store[id], m)
      && r.raised == Some(m) && r.deletions == []
  {
  }

  /** On success the record is completed with the transcription, language,
      engine and file path, and its error and video path are kept. */
  lemma Completion(store: Store, id: string, videoName: string, st: Stages,
      audio: AudioExtractionArtifact, srt: SrtGenerationArtifact)
    requires id in store && st.extract(store[id].videoPath) == Ok(audio)
    requires !Truthy(st.detect(audio.audioPath).error)
    requires var t := st.transcribe(audio.audioPath, st.detect(audio.audioPath).detectedLanguage);
      && !Truthy(t.error)
      && st.generate(t.wordTimestamps, id, st.detect(audio.audioPath).detectedLanguage, videoName) == Ok(srt)
    ensures var language := st.detect(audio.audioPath).detectedLanguage;
      var t := st.transcribe(audio.audioPath, language);
      var r := ProcessTask(store, id, videoName, st);
      && r.store[id] == TaskRecord(Completed, t.transcription, Some(language), Some(t.modelUsed),
                                   srt.srtFilePath, store[id].error, store[id].videoPath)
      && r.raised.None?
      && r.deletions == Cleanup(st, store[id].videoPath, audio.audioPath)
  {
  }

  /** Deleting files never touches the store, whether or not it succeeds. */
  lemma CleanupInvisible(store: Store, id: string, videoName: string, st: Stages, unlink: string -> bool)
    ensures ProcessTask(store, id, videoName, st).store == ProcessTask(store, id, videoName, st.(unlink := unlink)).store
    ensures ProcessTask(store, id, videoName, st).raised == ProcessTask(store, id, videoName, st.(unlink := unlink)).raised
  {
  }

  /** An empty transcription message is falsy in Python, so the task goes
      on to generation, which fails for the missing word list. */
  lemma BlankTranscriptionError(store: Store, id: string, videoName: string, e: Engines,
      extract: string -> Result<AudioExtractionArtifact>, unlink: string -> bool, audio: AudioExtractionArtifact)
    requires id in store && extract(store[id].videoPath) == Ok(audio)
    requires !Truthy(Detect(e, audio.audioPath).error)
    requires Transcribe(e, audio.audioPath, Detect(e, audio.audioPath).detectedLanguage) == Transcriber.Failure("")
    ensures var r := ProcessTask(store, id, videoName, ComponentStages(e, extract, unlink));
      && r.store[id] == Fail(store[id], NoWordTimestamps)
      && r.raised == Some(NoWordTimestamps)
  {
  }

  /** With the components wired in and the engines not loaded, a task whose
      audio was extracted fails with `Models not loaded`, without raising. */
  lemma NotLoadedFails(store: Store, id: string, videoName: string, e: Engines,
      extract: string -> Result<AudioExtractionArtifact>, unlink: string -> bool, audio: AudioExtractionArtifact)
    requires id in store && extract(store[id].videoPath) == Ok(audio)
    requires !e.loaded
    ensures var r := ProcessTask(store, id, videoName, ComponentStages(e, extract, unlink));
      && r.store[id] == Fail(store[id], ModelsNotLoaded)
      && r.raised.None? && r.deletions == []
  {
    assert Detect(e, audio.audioPath) == LanguageDetector.Failure(ModelsNotLoaded);
  }

  /** With the components wired in, a completed task's file path is the one
      named after its video and language, and an English task was
      transcribed by Whisper, any other by IndicConformer. */
  lemma ComponentsComplete(store: Store, id: string, videoName: string, e: Engines,
      extract: string -> Result<AudioExtractionArtifact>, unlink: string -> bool)
    requires id in store
    requires ProcessTask(store, id, videoName, ComponentStages(e, extract, unlink)).store[id].status == Completed
    ensures var rec := ProcessTask(store, id, videoName, ComponentStages(e, extract, unlink)).store[id];
      && rec.language.Some?
      && rec.srtFilePath == Some(SrtPath(videoName, rec.language.value))
      && rec.modelUsed == Some(if rec.language.value == "en" then "Whisper" else "IndicConformer")
  {
    var st := ComponentStages(e, extract, unlink);
    var audio := st.extract(store[id].videoPath).value;
    var language := Detect(e, audio.audioPath).detectedLanguage;
    var t := Transcribe(e, audio.audioPath, language);
    assert !Truthy(t.error);
  }

  /** The position of the last `c` among the first `n` characters of `s`,
      or -1 when there is none. */
  function LastIndex(s: string, c: char, n: nat): (i: int)
    requires n <= |s|
    ensures -1 <= i < n
    ensures i >= 0 ==> s[i] == c
    ensures forall k :: i < k < n ==> s[k] != c
  {
    if n == 0 then -1
    else if s[n - 1] == c then n - 1
    else LastIndex(s, c, n - 1)
  }

  /** Some character of `s` from `lo` up to `hi` is not a `.`. */
  predicate HasNonDot(s: string, lo: int, hi: int)
    requires 0 <= lo <= hi <= |s|
  {
    exists k :: lo <= k < hi && s[k] != '.'
  }

  /** Any dot of the final component with a non-dot before it makes the
      last dot of the path one too. */
  lemma LastDotSplits(path: string, sep: int)
    requires -1 <= sep < |path|
    ensures var dot := LastIndex(path, '.', |path|);
      (exists d :: sep < d < |path| && path[d] == '.' && HasNonDot(path, sep + 1, d)) ==>
        dot > sep && HasNonDot(path, sep + 1, dot)
  {
    var dot := LastIndex(path, '.', |path|);
    if d :| sep < d < |path| && path[d] == '.' && HasNonDot(path, sep + 1, d) {
      assert d <= dot;
      var k :| sep + 1 <= k < d && path[k] != '.';
      assert sep + 1 <= k < dot && path[k] != '.';
    }
  }

  /** `os.path.splitext(name)`: the last `.` splits off the extension when
      it lies in the final path component and that component has a
      character other than `.` before it; otherwise there is none. */
  function SplitExt(path: string): (r: (string, string))
    ensures r.0 + r.1 == path
    ensures r.1 != [] ==> r.1[0] == '.'
    ensures forall k :: 0 < k < |r.1| ==> r.1[k] != '.' && r.1[k] != '/'
    ensures r.1 != [] ==> HasNonDot(path, LastIndex(path, '/', |path|) + 1, |r.0|)
    ensures var sep := LastIndex(path, '/', |path|);
      (exists d :: sep < d < |path| && path[d] == '.' && HasNonDot(path, sep + 1, d)) ==> r.1 != []
  {
    var sep, dot := LastIndex(path, '/', |path|), LastIndex(path, '.', |path|);
    LastDotSplits(path, sep);
    if dot > sep && HasNonDot(path, sep + 1, dot) then
      assert path[..dot] + path[dot..] == path;
      (path[..dot], path[dot..])
    else
      assert path + [] == path;
      (path, [])
  }

  /** The response of lines 50-55. */
  datatype UploadResponse = UploadResponse(taskId: string, status: string, message: string, srtFilePath: Option<string>)

  /** The store after the call, its response or the message it raised, and
      the files `process_task` tried to delete. */
  datatype UploadOutcome = UploadOutcome(store: Store, result: Result<UploadResponse>, deletions: seq<string>)

  /** `upload_service(video, task_data)` for an upload named `filename`:
      `taskId` is the fresh id, `rejected` the validation error (if any),
      `videoPath` the temporary file, and `describe(m)` the text of a
      `CustomException` built from the message `m`. */
  function Upload(store: Store, taskId: string, filename: string, rejected: Option<string>, videoPath: string,
      st: Stages, describe: string -> string): (r: UploadOutcome)
    ensures rejected.Some? ==> r.result == Err(describe(rejected.value)) && r.deletions == []
    ensures rejected.Some? && taskId !in store ==> r.store == store
    ensures rejected.None? ==> taskId in r.store && r.store.Keys == store.Keys + {taskId}
    ensures forall k :: k in store && k != taskId ==> k in r.store && r.store[k] == store[k]
  {
    var videoName := SplitExt(filename).0;
    match rejected
    case Some(m) =>
      var s := if taskId in store then store[taskId := Fail(store[taskId], m)] else store;
      UploadOutcome(s, Err(describe(m)), [])
    case None =>
      var s0 := store[taskId := NewRecord(videoPath)];
      var p := ProcessTask(s0, taskId, videoName, st);
      ProcessFresh(s0, taskId, videoName, st);
      var rec := p.store[taskId];
      if p.raised.Some? then
        UploadOutcome(p.store[taskId := Fail(rec, p.raised.value)], Err(describe(p.raised.value)), p.deletions)
      else if rec.status == Failed then
        var wrapped := describe(rec.error.value);
        UploadOutcome(p.store[taskId := Fail(rec, wrapped)], Err(describe(wrapped)), p.deletions)
      else
        UploadOutcome(p.store, Ok(UploadResponse(taskId, StatusName(rec.status), "Processing completed", rec.srtFilePath)),
                      p.deletions)
  }

  /** A validated upload succeeds exactly when its task did not fail: then
      the task is completed and the response carries its file path; else the
      task is left failed. */
  lemma UploadSucceedsIffNotFailed(store: Store, taskId: string, filename: string, videoPath: string,
      st: Stages, describe: string -> string)
    ensures var r := Upload(store, taskId, filename, None, videoPath, st, describe);
      && (r.result.Ok? <==> r.store[taskId].status != Failed)
      && (r.result.Ok? ==>
            && r.store[taskId].status == Completed
            && r.result.value == UploadResponse(taskId, "completed", "Processing completed", r.store[taskId].srtFilePath))
      && (r.result.Err? ==> r.store[taskId].status == Failed && r.store[taskId].error.Some?)
  {
    var s0 := store[taskId := NewRecord(videoPath)];
    ProcessFresh(s0, taskId, SplitExt(filename).0, st);
  }

  /** The video name is the file name without its extension. */
  lemma SplitExtOfVideo()
    ensures SplitExt("talk.mp4") == ("talk", ".mp4")
  {
    var talk := "talk.mp4";
    assert LastIndex(talk, '/', 8) == -1;
    assert LastIndex(talk, '.', 8) == 4;
    assert talk[0] != '.' && HasNonDot(talk, 0, 4);
    assert talk[..4] == "talk" && talk[4..] == ".mp4";
  }

  /** Only the last extension is split off. */
  lemma SplitExtLastDot()
    ensures SplitExt("a.tar.gz") == ("a.tar", ".gz")
  {
    var tar := "a.tar.gz";
    assert LastIndex(tar, '/', 8) == -1;
    assert LastIndex(tar, '.', 8) == 5;
    assert tar[0] != '.' && HasNonDot(tar, 0, 5);
    assert tar[..5] == "a.tar" && tar[5..] == ".gz";
  }

  /** A leading dot does not start an extension, and a name without a dot
      has none. */
  lemma SplitExtNone()
    ensures SplitExt(".hidden") == (".hidden", "")
    ensures SplitExt("noext") == ("noext", "")
  {
  }
}
