/**
 * The start of the lyrics migration (`Test/migrations/upgrade_db_v1.2_add_lyrics.py`):
 * a lenient pass over `.env` that reports what it loads, an exit when the
 * file is missing, and then the strict pass over the same file.
 */
module AddLyricsMigration {
  import opened Wrappers
  import opened Environment

  /** How the environment loading ends. */
  datatype Startup =
    | Exited(code: nat)         // "File not found", `sys.exit(1)`
    | Crashed(failure: Failure) // an uncaught exception in one of the passes
    | Ready                     // both passes ran through

  /**
   * Both module-level loaders in order. `log` holds the report lines of
   * the lenient pass. The file is assumed to read the same in both passes.
   */
  method LoadEnvironment(environ: Environ, envFileExists: bool, lines: seq<string>)
    returns (result: Startup, log: seq<string>)
    modifies environ
    ensures !envFileExists ==> result == Exited(1) && log == [] && environ.vars == old(environ.vars)
    ensures envFileExists ==>
              var first := LenientLoad(old(environ.vars), lines);
              && log == first.log
              && (first.failure.Some? ==> result == Crashed(first.failure.value) && environ.vars == first.env)
              && (first.failure.None? ==>
                    var second := StrictLoad(first.env, lines);
                    && environ.vars == second.env
                    && (second.failure.Some? ==> result == Crashed(second.failure.value))
                    && (second.failure.None? ==> result == Ready))
  {
    if !envFileExists {
      return Exited(1), [];
    }
    var failure;
    log, failure := environ.LoadLenient(lines);
    if failure.Some? {
      return Crashed(failure.value), log;
    }
    failure := environ.LoadStrict(lines);
    if failure.Some? {
      return Crashed(failure.value), log;
    }
    return Ready, log;
  }

  /**
   * Loading gets through exactly when every line is blank, a comment, or an
   * assignment `putenv` accepts; the environment is then the old one with
   * the file's assignments laid over it.
   */
  lemma ReadyIff(env: map<string, string>, lines: seq<string>)
    ensures var first := LenientLoad(env, lines);
            (first.failure.None? && StrictLoad(first.env, lines).failure.None?)
            <==> forall j :: 0 <= j < |lines| ==> StrictAccepts(Classify(lines[j]))
    ensures var first := LenientLoad(env, lines);
            first.failure.None? && StrictLoad(first.env, lines).failure.None? ==>
              StrictLoad(first.env, lines).env == env + Writes(Kinds(lines), 0)
  {
    var kinds := Kinds(lines);
    var first := LenientFrom(env, kinds, 0);
    LenientFailsIff(env, kinds, 0);
    StrictFailsIff(first.env, kinds, 0);
    assert forall j :: 0 <= j < |lines| ==> kinds[j] == Classify(lines[j]);
    if first.failure.None? && StrictFrom(first.env, kinds, 0).failure.None? {
      LenientLoadsWrites(env, kinds, 0);
      SecondPassChangesNothing(env, lines);
    }
  }
}
