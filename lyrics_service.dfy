/**
 * The lyrics web service (`AI/Lyrics/app.py`): model selection at start-up,
 * the `/health` probe and the `/transcribe` handler, which turns the engine's
 * segments into timed entries and a space-joined full text.
 */
module LyricsService {
  import opened Wrappers
  import opened Text
  import opened Timestamp
  import opened Whisper
  import Environment
  import opened Sequences

  /**
   * The module-level state fixed at start-up: `MODEL_SIZE`, and whether the
   * `WhisperModel(...)` constructor succeeded (`model` is then an object,
   * otherwise `None`).
   */
  datatype Service = Service(modelSize: string, modelLoaded: bool)

  /** `MODEL_SIZE = os.getenv("WHISPER_MODEL", "tiny")`, then the guarded load. */
  function Startup(env: map<string, string>, loadSucceeds: bool): (s: Service)
    ensures s.modelLoaded == loadSucceeds
    ensures "WHISPER_MODEL" in env ==> s.modelSize == env["WHISPER_MODEL"]
    ensures "WHISPER_MODEL" !in env ==> s.modelSize == "tiny"
  {
    Service(Environment.Get(env, "WHISPER_MODEL", "tiny"), loadSucceeds)
  }

  datatype Health =
    | Healthy(status: string, model: string)
    | Unavailable(statusCode: nat, detail: string)

  /** `GET /health`. */
  function CheckHealth(s: Service): (h: Health)
    ensures h.Unavailable? <==> !s.modelLoaded
    ensures h.Unavailable? ==> h.statusCode == 503
    ensures h.Healthy? ==> h.status == "ok" && h.model == s.modelSize
  {
    if !s.modelLoaded then Unavailable(503, "Model not loaded") else Healthy("ok", s.modelSize)
  }

  /** One element of the `segments` list: `{"time": ..., "text": ...}`. */
  datatype Entry = Entry(time: string, text: string)

  /** The JSON body of a successful `/transcribe`. */
  datatype Transcription =
    Transcription(language: string, languageProb: real, segments: seq<Entry>, fullText: string)

  datatype Reply = Ok(body: Transcription) | HttpError(statusCode: nat, detail: string)

  function Texts(entries: seq<Entry>): (texts: seq<string>)
    ensures |texts| == |entries|
    ensures forall k :: 0 <= k < |entries| ==> texts[k] == entries[k].text
  {
    seq(|entries|, k requires 0 <= k < |entries| => entries[k].text)
  }

  /** One entry of the `segments` list: the formatted start and the stripped text. */
  function EntryOf(segment: Segment): Entry {
    Entry(Format(segment.startUs), Strip(segment.text))
  }

  /**
   * `POST /transcribe`. The model is checked before the file, so a missing
   * model answers 503 even for a missing file. Any exception inside the
   * `try`, raised by `model.transcribe` itself or by the generator in the
   * middle of the loop, answers 500 with the exception text, and the lists
   * built so far are dropped. The generator is drained first and its fault,
   * if any, reported after, which gives the same reply.
   */
  method TranscribeAudio(s: Service, filePath: string, fileExists: bool, run: Run)
    returns (r: Reply)
    ensures !s.modelLoaded ==> r == HttpError(503, "Model not initialized")
    ensures s.modelLoaded && !fileExists ==> r == HttpError(404, "File not found: " + filePath)
    ensures s.modelLoaded && fileExists && run.Fails? ==> r == HttpError(500, run.message)
    ensures s.modelLoaded && fileExists && run.Yields? && run.interruption.Some? ==>
              r == HttpError(500, run.interruption.value)
    ensures s.modelLoaded && fileExists && run.Yields? && run.interruption.None? ==>
              && r.Ok?
              && r.body.language == run.info.language
              && r.body.languageProb == run.info.probability
              && |r.body.segments| == |run.segments|
              && (forall k :: 0 <= k < |run.segments| ==>
                    r.body.segments[k] == Entry(Format(run.segments[k].startUs), Strip(run.segments[k].text)))
              && r.body.fullText == Join(" ", Texts(r.body.segments))
  {
    if !s.modelLoaded {
      return HttpError(503, "Model not initialized");
    }
    if !fileExists {
      return HttpError(404, "File not found: " + filePath);
    }
    if run.Fails? {
      return HttpError(500, run.message);
    }
    var lines, fullText := CollectSegments(run.segments);
    if run.interruption.Some? {
      return HttpError(500, run.interruption.value);
    }
    forall k | 0 <= k < |run.segments|
      ensures lines[k] == EntryOf(run.segments[k])
    {
      MapSeqAt(run.segments, EntryOf, k);
    }
    r := Ok(Transcription(run.info.language, run.info.probability, lines, Join(" ", fullText)));
  }

  /**
   * The handler's `for segment in segments` loop: each segment appends its
   * entry to `segments_list` and its stripped text to `full_text`.
   */
  method CollectSegments(segments: seq<Segment>) returns (lines: seq<Entry>, fullText: seq<string>)
    ensures lines == MapSeq(segments, EntryOf)
    ensures fullText == Texts(lines)
  {
    lines := [];
    fullText := [];
    var i := 0;
    while i < |segments|
      invariant 0 <= i <= |segments|
      invariant lines == MapSeq(segments[..i], EntryOf)
      invariant |fullText| == |lines|
      invariant forall k :: 0 <= k < |lines| ==> fullText[k] == lines[k].text
    {
      var timestamp := Format(segments[i].startUs);
      var text := Strip(segments[i].text);
      assert Entry(timestamp, text) == EntryOf(segments[i]);
      assert segments[..i + 1][..i] == segments[..i] && segments[..i + 1][i] == segments[i];
      assert MapSeq(segments[..i + 1], EntryOf) == MapSeq(segments[..i], EntryOf) + [EntryOf(segments[i])];
      lines := lines + [Entry(timestamp, text)];
      fullText := fullText + [text];
      i := i + 1;
    }
    assert segments[..i] == segments;
  }

  /**
   * When no stripped text contains a space, the full text splits back into
   * the segment texts, one per segment and in order.
   */
  lemma FullTextSplitsBack(entries: seq<Entry>)
    requires |entries| >= 1
    requires forall k :: 0 <= k < |entries| ==> ' ' !in entries[k].text
    ensures Split(Join(" ", Texts(entries)), ' ') == Texts(entries)
  {
    SplitJoin(Texts(entries), ' ');
  }
}
