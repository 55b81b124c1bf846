/**
 * The table lister (`Test/debug_db_tables.py`): at import it loads `.env`
 * from the project root with the strict loop, then `list_tables` connects
 * with the resulting settings. The query and its printout are not modelled.
 */
module DebugDbTables {
  import opened Wrappers
  import opened Environment

  /**
   * The module-level loader. Without the file nothing happens; with it, the
   * strict loop runs, and an exception stops the script with the earlier
   * assignments in place.
   */
  method LoadEnvFile(environ: Environ, envFileExists: bool, lines: seq<string>)
    returns (failure: Option<Failure>)
    modifies environ
    ensures !envFileExists ==> failure.None? && environ.vars == old(environ.vars)
    ensures envFileExists ==> Loaded(environ.vars, failure) == StrictLoad(old(environ.vars), lines)
  {
    failure := None;
    if envFileExists {
      failure := environ.LoadStrict(lines);
    }
  }

  /**
   * After a clean load, each connection setting is the file's last value for
   * its variable, or else what the environment already held, or else the
   * default.
   */
  lemma SettingsAfterLoad(env: map<string, string>, lines: seq<string>)
    requires StrictLoad(env, lines).failure.None?
    ensures var w, s := Writes(Kinds(lines), 0), ConnectionSettings(StrictLoad(env, lines).env);
            && s.host == (if "POSTGRES_HOST" in w then w["POSTGRES_HOST"] else Get(env, "POSTGRES_HOST", "postgres"))
            && s.dbname == (if "POSTGRES_DB" in w then w["POSTGRES_DB"] else Get(env, "POSTGRES_DB", "webmusic"))
  {
    LoadedLookup(env, lines, "POSTGRES_HOST", "postgres");
    LoadedLookup(env, lines, "POSTGRES_DB", "webmusic");
  }
}
