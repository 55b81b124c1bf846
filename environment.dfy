/**
 * The process environment (`os.environ`) and the hand-written `.env` loaders
 * of the database scripts. A loader reads the file line by line, skips blank
 * lines and lines that start with `#`, splits the stripped line at its first
 * `=` and assigns `os.environ[key] = value`.
 *
 * The loaders are specified by functions that walk the lines from a given
 * index (`StrictFrom`, `LenientFrom`); the class `Environ` runs the same
 * loops in place on its `vars` map.
 */
module Environment {
  import opened Wrappers
  import opened Text

  /** `os.environ.get(key, default)` and `os.getenv(key, default)`. */
  function Get(env: map<string, string>, key: string, default: string): (v: string)
    ensures key in env ==> v == env[key]
    ensures key !in env ==> v == default
  {
    if key in env then env[key] else default
  }

  /**
   * Whether `os.environ[key] = value` goes through: `putenv` refuses an
   * empty name, a name containing `=`, and a NUL character in either string
   * (each raises `ValueError` or `OSError`, and the map is left unchanged).
   */
  predicate Accepts(key: string, value: string) {
    key != "" && '=' !in key && '\0' !in key && '\0' !in value
  }

  /** The connection settings both database scripts read after loading `.env`. */
  datatype DbSettings = DbSettings(host: string, user: string, password: string, dbname: string)

  /** Each setting is the variable when it is set, and otherwise its default. */
  function ConnectionSettings(env: map<string, string>): (s: DbSettings)
    ensures "POSTGRES_HOST" in env ==> s.host == env["POSTGRES_HOST"]
    ensures "POSTGRES_HOST" !in env ==> s.host == "postgres"
    ensures "POSTGRES_USER" in env ==> s.user == env["POSTGRES_USER"]
    ensures "POSTGRES_USER" !in env ==> s.user == "postgres"
    ensures "POSTGRES_PASSWORD" in env ==> s.password == env["POSTGRES_PASSWORD"]
    ensures "POSTGRES_PASSWORD" !in env ==> s.password == "password"
    ensures "POSTGRES_DB" in env ==> s.dbname == env["POSTGRES_DB"]
    ensures "POSTGRES_DB" !in env ==> s.dbname == "webmusic"
  {
    DbSettings(Get(env, "POSTGRES_HOST", "postgres"), Get(env, "POSTGRES_USER", "postgres"),
               Get(env, "POSTGRES_PASSWORD", "password"), Get(env, "POSTGRES_DB", "webmusic"))
  }

  // ---------------------------------------------------------------------------
  // one line

  /** What the loop body makes of one raw line (which may still end in a newline). */
  datatype LineKind =
    | Skipped                           // blank after strip, or a `#` in the first column
    | Pair(key: string, value: string)  // `key, val = line.strip().split('=', 1)`
    | Unpaired                          // no `=`: the split yields one piece

  function Classify(line: string): (kind: LineKind)
    ensures kind.Skipped? <==> Strip(line) == [] || StartsWith(line, "#")
    ensures kind.Unpaired? <==> !kind.Skipped? && '=' !in Strip(line)
    ensures kind.Pair? ==> Strip(line) == kind.key + "=" + kind.value && '=' !in kind.key
  {
    var stripped := Strip(line);
    if stripped == [] || StartsWith(line, "#") then Skipped
    else
      var parts := SplitOnce(stripped, '=');
      if |parts| != 2 then Unpaired else Pair(parts[0], parts[1])
  }

  /** The report line of the lenient loader; secret-looking keys hide their value. */
  function Report(key: string, value: string): string {
    "  Loaded " + key + "=" + (if IsSecret(key) then "***" else value)
  }

  /** `"PASSWORD" in key or "KEY" in key`, case-sensitive. */
  predicate IsSecret(key: string) {
    Contains(key, "PASSWORD") || Contains(key, "KEY")
  }

  // ---------------------------------------------------------------------------
  // whole files

  /** Why a loader stopped; `line` is the index of the offending line. */
  datatype Failure =
    | MissingSeparator(line: nat)  // `ValueError: not enough values to unpack`
    | IllegalVariable(line: nat)   // refused by `putenv`

  datatype Loaded = Loaded(env: map<string, string>, failure: Option<Failure>)

  datatype Reported = Reported(env: map<string, string>, log: seq<string>, failure: Option<Failure>)

  /** The classification of every line, in file order. */
  function Kinds(lines: seq<string>): seq<LineKind> {
    seq(|lines|, j requires 0 <= j < |lines| => Classify(lines[j]))
  }

  /**
   * The strict loop (`key, val = line.strip().split('=', 1)`) over the
   * lines from index `i` on, starting from `env`. An exception ends the
   * script with the assignments made so far in place.
   */
  function StrictFrom(env: map<string, string>, kinds: seq<LineKind>, i: nat): Loaded
    requires i <= |kinds|
    decreases |kinds| - i
  {
    if i == |kinds| then Loaded(env, None)
    else match kinds[i]
      case Skipped => StrictFrom(env, kinds, i + 1)
      case Unpaired => Loaded(env, Some(MissingSeparator(i)))
      case Pair(key, value) =>
        if !Accepts(key, value) then Loaded(env, Some(IllegalVariable(i)))
        else StrictFrom(env[key := value], kinds, i + 1)
  }

  function StrictLoad(env: map<string, string>, lines: seq<string>): Loaded {
    StrictFrom(env, Kinds(lines), 0)
  }

  /**
   * The lenient loop (`if len(parts) == 2`) over the lines from index `i`
   * on: a line without `=` is passed over, and every assignment is reported.
   */
  function LenientFrom(env: map<string, string>, kinds: seq<LineKind>, i: nat): Reported
    requires i <= |kinds|
    decreases |kinds| - i
  {
    if i == |kinds| then Reported(env, [], None)
    else match kinds[i]
      case Skipped => LenientFrom(env, kinds, i + 1)
      case Unpaired => LenientFrom(env, kinds, i + 1)
      case Pair(key, value) =>
        if !Accepts(key, value) then Reported(env, [], Some(IllegalVariable(i)))
        else
          var rest := LenientFrom(env[key := value], kinds, i + 1);
          rest.(log := [Report(key, value)] + rest.log)
  }

  function LenientLoad(env: map<string, string>, lines: seq<string>): Reported {
    LenientFrom(env, Kinds(lines), 0)
  }

  /** The assignments the lines from index `i` on spell out, a later line for the same key winning. */
  function Writes(kinds: seq<LineKind>, i: nat): map<string, string>
    requires i <= |kinds|
    decreases |kinds| - i
  {
    if i == |kinds| then map[]
    else match kinds[i]
      case Pair(key, value) => map[key := value] + Writes(kinds, i + 1)
      case _ => Writes(kinds, i + 1)
  }

  predicate StrictAccepts(kind: LineKind) {
    kind.Skipped? || (kind.Pair? && Accepts(kind.key, kind.value))
  }

  predicate LenientAccepts(kind: LineKind) {
    !kind.Pair? || Accepts(kind.key, kind.value)
  }

  // ---------------------------------------------------------------------------
  // the environment object

  /** `os.environ`, a string map that the loaders update in place. */
  class Environ {
    var vars: map<string, string>

    constructor (initial: map<string, string>)
      ensures vars == initial
    {
      vars := initial;
    }

    /** The strict loader loop; on an exception the earlier assignments stay. */
    method LoadStrict(lines: seq<string>) returns (failure: Option<Failure>)
      modifies this
      ensures Loaded(vars, failure) == StrictLoad(old(vars), lines)
    {
      ghost var kinds := Kinds(lines);
      var i := 0;
      while i < |lines|
        invariant 0 <= i <= |lines|
        invariant StrictFrom(vars, kinds, i) == StrictFrom(old(vars), kinds, 0)
      {
        var line := lines[i];
        var stripped := Strip(line);
        ghost var kind := kinds[i];
        assert kind == Classify(line);
        if stripped != [] && !StartsWith(line, "#") {
          var parts := SplitOnce(stripped, '=');
          if |parts| != 2 {
            assert kind == Unpaired;
            assert StrictFrom(vars, kinds, i) == Loaded(vars, Some(MissingSeparator(i)));
            return Some(MissingSeparator(i));
          }
          var key, value := parts[0], parts[1];
          assert kind == Pair(key, value);
          if !Accepts(key, value) {
            assert StrictFrom(vars, kinds, i) == Loaded(vars, Some(IllegalVariable(i)));
            return Some(IllegalVariable(i));
          }
          assert StrictFrom(vars, kinds, i) == StrictFrom(vars[key := value], kinds, i + 1);
          vars := vars[key := value];
        } else {
          assert kind == Skipped;
          assert StrictFrom(vars, kinds, i) == StrictFrom(vars, kinds, i + 1);
        }
        i := i + 1;
      }
      return None;
    }

    /** The lenient loader loop, returning the report lines it prints. */
    method LoadLenient(lines: seq<string>) returns (log: seq<string>, failure: Option<Failure>)
      modifies this
      ensures Reported(vars, log, failure) == LenientLoad(old(vars), lines)
    {
      ghost var kinds := Kinds(lines);
      ghost var whole := LenientFrom(vars, kinds, 0);
      log := [];
      var i := 0;
      while i < |lines|
        invariant 0 <= i <= |lines|
        invariant LenientFrom(vars, kinds, i).env == whole.env
        invariant LenientFrom(vars, kinds, i).failure == whole.failure
        invariant log + LenientFrom(vars, kinds, i).log == whole.log
      {
        var line := lines[i];
        var stripped := Strip(line);
        ghost var kind := kinds[i];
        assert kind == Classify(line);
        if stripped != [] && !StartsWith(line, "#") {
          var parts := SplitOnce(stripped, '=');
          if |parts| == 2 {
            var key, value := parts[0], parts[1];
            assert kind == Pair(key, value);
            if !Accepts(key, value) {
              assert LenientFrom(vars, kinds, i) == Reported(vars, [], Some(IllegalVariable(i)));
              assert log + [] == log;
              return log, Some(IllegalVariable(i));
            }
            ghost var rest := LenientFrom(vars[key := value], kinds, i + 1);
            assert LenientFrom(vars, kinds, i) == rest.(log := [Report(key, value)] + rest.log);
            assert log + ([Report(key, value)] + rest.log) == (log + [Report(key, value)]) + rest.log;
            vars := vars[key := value];
            log := log + [Report(key, value)];
          } else {
            assert kind == Unpaired;
            assert LenientFrom(vars, kinds, i) == LenientFrom(vars, kinds, i + 1);
          }
        } else {
          assert kind == Skipped;
          assert LenientFrom(vars, kinds, i) == LenientFrom(vars, kinds, i + 1);
        }
        i := i + 1;
      }
      assert log + [] == log;
      return log, None;
    }
  }

  // ---------------------------------------------------------------------------
  // properties

  /** A strict load fails exactly when some line has no `=` or is refused by `putenv`. */
  lemma {:induction false} StrictFailsIff(env: map<string, string>, kinds: seq<LineKind>, i: nat)
    requires i <= |kinds|
    ensures StrictFrom(env, kinds, i).failure.None?
            <==> forall j :: i <= j < |kinds| ==> StrictAccepts(kinds[j])
    decreases |kinds| - i
  {
    if i < |kinds| {
      match kinds[i]
      case Skipped => StrictFailsIff(env, kinds, i + 1);
      case Unpaired =>
      case Pair(key, value) =>
        if Accepts(key, value) {
          StrictFailsIff(env[key := value], kinds, i + 1);
        }
    }
  }

  /** A lenient load fails exactly when `putenv` refuses some pair. */
  lemma {:induction false} LenientFailsIff(env: map<string, string>, kinds: seq<LineKind>, i: nat)
    requires i <= |kinds|
    ensures LenientFrom(env, kinds, i).failure.None?
            <==> forall j :: i <= j < |kinds| ==> LenientAccepts(kinds[j])
    decreases |kinds| - i
  {
    if i < |kinds| {
      match kinds[i]
      case Skipped => LenientFailsIff(env, kinds, i + 1);
      case Unpaired => LenientFailsIff(env, kinds, i + 1);
      case Pair(key, value) =>
        if Accepts(key, value) {
          LenientFailsIff(env[key := value], kinds, i + 1);
        }
    }
  }

  lemma UpdateThenUnion(env: map<string, string>, key: string, value: string, w: map<string, string>)
    ensures env[key := value] + w == env + (map[key := value] + w)
  {
  }

  /** A successful strict load overlays the file's assignments on the old environment. */
  lemma {:induction false} StrictLoadsWrites(env: map<string, string>, kinds: seq<LineKind>, i: nat)
    requires i <= |kinds|
    requires StrictFrom(env, kinds, i).failure.None?
    ensures StrictFrom(env, kinds, i).env == env + Writes(kinds, i)
    decreases |kinds| - i
  {
    if i < |kinds| {
      match kinds[i]
      case Skipped => StrictLoadsWrites(env, kinds, i + 1);
      case Pair(key, value) =>
        StrictLoadsWrites(env[key := value], kinds, i + 1);
        UpdateThenUnion(env, key, value, Writes(kinds, i + 1));
    }
  }

  /** A successful lenient load overlays the same assignments. */
  lemma {:induction false} LenientLoadsWrites(env: map<string, string>, kinds: seq<LineKind>, i: nat)
    requires i <= |kinds|
    requires LenientFrom(env, kinds, i).failure.None?
    ensures LenientFrom(env, kinds, i).env == env + Writes(kinds, i)
    decreases |kinds| - i
  {
    if i < |kinds| {
      match kinds[i]
      case Skipped => LenientLoadsWrites(env, kinds, i + 1);
      case Unpaired => LenientLoadsWrites(env, kinds, i + 1);
      case Pair(key, value) =>
        LenientLoadsWrites(env[key := value], kinds, i + 1);
        UpdateThenUnion(env, key, value, Writes(kinds, i + 1));
    }
  }

  /**
   * The value written for a key is the one on the last line that assigns
   * it, and a key no line assigns is not written.
   */
  lemma {:induction false} LastAssignmentWins(kinds: seq<LineKind>, i: nat, j: nat)
    requires i <= j < |kinds| && kinds[j].Pair?
    requires forall m :: j < m < |kinds| && kinds[m].Pair? ==> kinds[m].key != kinds[j].key
    ensures kinds[j].key in Writes(kinds, i)
    ensures Writes(kinds, i)[kinds[j].key] == kinds[j].value
    decreases |kinds| - i
  {
    if i < j {
      LastAssignmentWins(kinds, i + 1, j);
    } else {
      NotWritten(kinds, i + 1, kinds[j].key);
    }
  }

  /** A key that no line from index `i` on assigns is not among the writes. */
  lemma {:induction false} NotWritten(kinds: seq<LineKind>, i: nat, key: string)
    requires i <= |kinds|
    requires forall m :: i <= m < |kinds| && kinds[m].Pair? ==> kinds[m].key != key
    ensures key !in Writes(kinds, i)
    decreases |kinds| - i
  {
    if i < |kinds| {
      NotWritten(kinds, i + 1, key);
    }
  }

  /**
   * After a successful strict load, looking a key up gives the file's last
   * value for it, or else what the environment held, or else the default.
   */
  lemma LoadedLookup(env: map<string, string>, lines: seq<string>, key: string, default: string)
    requires StrictLoad(env, lines).failure.None?
    ensures var w := Writes(Kinds(lines), 0);
            Get(StrictLoad(env, lines).env, key, default)
            == if key in w then w[key] else Get(env, key, default)
  {
    StrictLoadsWrites(env, Kinds(lines), 0);
  }

  /**
   * Running the strict pass after the lenient pass over the same file
   * leaves the environment as the lenient pass left it: the second pass
   * re-assigns the values the first pass set.
   */
  lemma SecondPassChangesNothing(env: map<string, string>, lines: seq<string>)
    requires LenientLoad(env, lines).failure.None?
    requires StrictLoad(LenientLoad(env, lines).env, lines).failure.None?
    ensures StrictLoad(LenientLoad(env, lines).env, lines).env == LenientLoad(env, lines).env
  {
    var kinds := Kinds(lines);
    var first := LenientFrom(env, kinds, 0).env;
    LenientLoadsWrites(env, kinds, 0);
    StrictLoadsWrites(first, kinds, 0);
    var w := Writes(kinds, 0);
    assert (env + w) + w == env + w;
  }

  /**
   * A line without `=` that the lenient pass tolerated still stops the
   * strict pass, whatever the environment.
   */
  lemma UnpairedLineStopsStrictPass(env: map<string, string>, lines: seq<string>, j: nat)
    requires j < |lines| && Classify(lines[j]).Unpaired?
    ensures StrictLoad(env, lines).failure.Some?
  {
    var kinds := Kinds(lines);
    assert kinds[j] == Classify(lines[j]);
    StrictFailsIff(env, kinds, 0);
  }

  /** Whatever the strict loader accepts, the lenient loader accepts, with the same result. */
  lemma StrictImpliesLenient(env: map<string, string>, lines: seq<string>)
    requires StrictLoad(env, lines).failure.None?
    ensures LenientLoad(env, lines).failure.None?
    ensures LenientLoad(env, lines).env == StrictLoad(env, lines).env
  {
    var kinds := Kinds(lines);
    StrictFailsIff(env, kinds, 0);
    LenientFailsIff(env, kinds, 0);
    StrictLoadsWrites(env, kinds, 0);
    LenientLoadsWrites(env, kinds, 0);
  }

  /** A secret-looking key is reported the same whatever its value; any other key shows it. */
  lemma ReportMasking(key: string, value: string, other: string)
    ensures IsSecret(key) ==> Report(key, value) == Report(key, other)
    ensures !IsSecret(key) ==> Report(key, value)[|Report(key, value)| - |value|..] == value
  {
  }
}
