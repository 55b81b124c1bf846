/**
 * The speech-to-text engine as the two callers see it. Loading a model and
 * running `model.transcribe(path, beam_size=5)` happen in a foreign library;
 * the model takes what they produce as input.
 */
module Whisper {
  import opened Wrappers

  /** One recognised utterance: its start, in whole microseconds, and its raw text. */
  datatype Segment = Segment(startUs: nat, text: string)

  /** The `info` object: detected language and its probability, passed through untouched. */
  datatype LanguageInfo = LanguageInfo(language: string, probability: real)

  /**
   * What one call of `model.transcribe` amounts to: either it raises at
   * once, or it returns the language info and a lazy segment generator. The
   * generator yields `segments` in order and then either ends or raises
   * `interruption` (a fault in the middle of the iteration).
   */
  datatype Run =
    | Fails(message: string)
    | Yields(info: LanguageInfo, segments: seq<Segment>, interruption: Option<string>)
}
