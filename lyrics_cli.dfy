/**
 * The command-line transcriber (`AI/Lyrics/transcribe.py`): argument
 * handling and `transcribe`, which prints and returns one LRC line per
 * segment. Unlike the web service, it answers a missing model or a missing
 * file by returning `None`, and it lets exceptions from the engine escape.
 */
module LyricsCli {
  import opened Wrappers
  import opened Text
  import opened Timestamp
  import opened Whisper
  import opened Sequences

  /** What `python transcribe.py ...` does with its arguments. */
  datatype Invocation =
    | Usage(exitCode: nat)                        // usage message, `sys.exit(1)`
    | Invoke(audioPath: string, modelSize: string) // `transcribe(audio_file, model_size=model)`

  /** `sys.argv` handling; `argv[0]` is the script name. */
  function ParseArgs(argv: seq<string>): (inv: Invocation)
    ensures inv.Usage? <==> |argv| < 2
    ensures inv.Usage? ==> inv.exitCode == 1
    ensures inv.Invoke? ==> inv.audioPath == argv[1]
    ensures |argv| == 2 ==> inv.modelSize == "tiny"
    ensures |argv| > 2 ==> inv.modelSize == argv[2]
  {
    if |argv| < 2 then Usage(1)
    else Invoke(argv[1], if |argv| > 2 then argv[2] else "tiny")
  }

  /** Arguments after the model size are ignored. */
  lemma ExtraArgumentsIgnored(argv: seq<string>, extra: seq<string>)
    requires |argv| >= 3
    ensures ParseArgs(argv + extra) == ParseArgs(argv)
  {
    assert (argv + extra)[1] == argv[1] && (argv + extra)[2] == argv[2];
  }

  /** How a call of `transcribe` ends: it returns a list or `None`, or it raises. */
  datatype Outcome = Returned(lines: Option<seq<string>>) | Raised(message: string)

  /** `f"{start_time}{text}"`: the timestamp immediately followed by the stripped text. */
  function LrcLine(segment: Segment): string {
    Format(segment.startUs) + Strip(segment.text)
  }

  /**
   * `transcribe(audio_path, model_size)`. A model that fails to load and a
   * missing file each print an error and return `None`, the model being
   * tried first. An exception from `model.transcribe`, or from the segment
   * generator during the loop, propagates to the caller.
   */
  method Transcribe(modelLoads: bool, fileExists: bool, run: Run) returns (r: Outcome)
    ensures !modelLoads ==> r == Returned(None)
    ensures modelLoads && !fileExists ==> r == Returned(None)
    ensures modelLoads && fileExists && run.Fails? ==> r == Raised(run.message)
    ensures modelLoads && fileExists && run.Yields? && run.interruption.Some? ==>
              r == Raised(run.interruption.value)
    ensures modelLoads && fileExists && run.Yields? && run.interruption.None? ==>
              && r.Returned? && r.lines.Some?
              && |r.lines.value| == |run.segments|
              && forall k :: 0 <= k < |run.segments| ==>
                   r.lines.value[k] == Format(run.segments[k].startUs) + Strip(run.segments[k].text)
  {
    if !modelLoads {
      return Returned(None);
    }
    if !fileExists {
      return Returned(None);
    }
    if run.Fails? {
      return Raised(run.message);
    }
    var segments := run.segments;
    var lrcLines: seq<string> := [];
    var i := 0;
    while i < |segments|
      invariant 0 <= i <= |segments|
      invariant lrcLines == MapSeq(segments[..i], LrcLine)
    {
      var startTime := Format(segments[i].startUs);
      var text := Strip(segments[i].text);
      var line := startTime + text;
      assert line == LrcLine(segments[i]);
      assert segments[..i + 1][..i] == segments[..i] && segments[..i + 1][i] == segments[i];
      lrcLines := lrcLines + [line];
      i := i + 1;
    }
    if run.interruption.Some? {
      return Raised(run.interruption.value);
    }
    assert segments[..i] == segments;
    forall k | 0 <= k < |segments|
      ensures lrcLines[k] == LrcLine(segments[k])
    {
      MapSeqAt(segments, LrcLine, k);
    }
    return Returned(Some(lrcLines));
  }

  /** A line read back: the clock fields and the text after the first `]`. */
  datatype LrcParsed = LrcParsed(clock: Clock, text: string)

  /** Splits a line after its first `]` and reads the timestamp in front of it. */
  function ParseLrcLine(line: string): Option<LrcParsed> {
    if ']' !in line then None
    else
      var at := IndexOf(line, ']');
      match ParseClock(line[..at + 1])
      case None => None
      case Some(clock) => Some(LrcParsed(clock, line[at + 1..]))
  }

  /**
   * Every line reads back into the printed clock fields and the stripped
   * text, however wide the minutes field is and whatever the text holds.
   */
  lemma LrcLineParses(segment: Segment)
    ensures ParseLrcLine(LrcLine(segment)) == Some(LrcParsed(ClockOf(segment.startUs), Strip(segment.text)))
  {
    var stamp, text := Format(segment.startUs), Strip(segment.text);
    var line := stamp + text;
    FormatWidth(segment.startUs);
    FormatParses(segment.startUs);
    var n := |stamp| - 1;
    assert line[n] == ']' && line[..n] == stamp[..n];
    assert IndexOf(line, ']') == n;
    assert line[..n + 1] == stamp && line[n + 1..] == text;
  }

  /**
   * With minutes below 100 the line is the ten-character stamp `[MM:SS.CC]`
   * followed by the text.
   */
  lemma LrcLineShape(segment: Segment)
    ensures LrcLine(segment)[0] == '[' && StartsWith(LrcLine(segment), Format(segment.startUs))
    ensures ClockOf(segment.startUs).minutes < 100 ==>
              LrcLine(segment)[9] == ']' && LrcLine(segment)[10..] == Strip(segment.text)
  {
    FormatWidth(segment.startUs);
    var line := LrcLine(segment);
    assert line[..|Format(segment.startUs)|] == Format(segment.startUs);
  }
}
