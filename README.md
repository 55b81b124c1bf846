# LRC transcription, SMB locators and `.env` loading

This project models three pieces of the music server's Python tooling in
Dafny and proves properties about them.

* **Lyrics transcription** (`AI/Lyrics/app.py`, `AI/Lyrics/transcribe.py`).
  A segment's start time is formatted as an LRC timestamp `[MM:SS.CC]`.
  The web service turns the engine's segments into timed entries plus a
  space-joined full text, and maps each failure to an HTTP status. The
  command-line script builds one LRC line per segment. The model proves
  several things about these:
  * the timestamp reads back into its clock fields;
  * hundredths are truncated, not rounded;
  * `{:02d}` pads but never cuts;
  * each LRC line splits back into its timestamp and its stripped text;
  * the handler's loop yields exactly one entry per segment, in order.
* **SMB locator normalisation** (`Test/test_smb_fetch.py`).
  * `get_media_info` yields a record only when every lookup succeeds, and it
    fills in empty credentials.
  * `download_file` takes:
    * the host from a credential host that may carry an `smb://` prefix;
    * the share name from the source path, which is either an `smb://` URL
      or a plain or backslash path;
    * the UNC tree path `\\host\share`;
    * the backslash form of the file path.
  * The lemmas cover:
    * hosts with and without a path;
    * repeated schemes;
    * URLs with several slashes before the share;
    * URLs without a share;
    * UNC-style sources, whose leading separator yields an empty share.
* **`.env` loaders** (`Test/debug_db_tables.py`,
  `Test/migrations/upgrade_db_v1.2_add_lyrics.py`). `os.environ` is a class
  `Environment.Environ` holding a `map` field. The loaders are methods that
  update it line by line. Each method is proved equal to a recursive
  specification function. The lemmas then state, over those functions:
  * exactly when a pass fails;
  * that a later assignment wins;
  * what each connection setting ends up as;
  * that the migration's strict second pass changes nothing after a clean
    lenient first pass;
  * that the lenient report masks secret-looking values.

Time is measured in whole microseconds (`nat`), which is the resolution of
Python's `timedelta`.

`td.seconds` drops whole days, so the minutes field stays below 1440 and
wraps back to `00` after 24 hours (`DaysDropped`, `SampleDayDropped`).
Minutes are never carried into hours: one hour prints `[60:00.00]` and
100 minutes print `[100:00.00]`.

Modules:
* `Wrappers` (`Option`)
* `Sequences` (`MapSeq`)
* `Text` (Python's `strip`, `split`, `join`, `replace`)
* `Timestamp`
* `Whisper` (the engine's output as data)
* `LyricsService`
* `LyricsCli`
* `SmbFetch`
* `Environment`
* `DebugDbTables`
* `AddLyricsMigration`

## Model

| member | source | states |
|---|---|---|
| Timestamp.ClockOf | AI/Lyrics/app.py:30-33 | minutes come from `td.seconds` (< 1440), seconds are below 60 and hundredths below 100 |
| Timestamp.Pad2 | AI/Lyrics/app.py:34 | `{:02d}`: the decimal digits, with one leading `0` when there is only one digit (properties in `Pad2Digits`) |
| Timestamp.Format | AI/Lyrics/app.py:30-34 | `format_timestamp` (the same function as AI/Lyrics/transcribe.py:6-12): `[`, padded minutes, `:`, padded seconds, `.`, padded hundredths, `]` of `ClockOf` (properties in `FormatParses`, `FormatWidth`, `FormatInjective`) |
| Timestamp.Decimal | AI/Lyrics/app.py:34 | `str(n)` is a non-empty digit string with no leading zero unless n is 0 |
| Timestamp.DecimalRoundTrip | AI/Lyrics/app.py:34 | reading the decimal digits back gives the number |
| Timestamp.DecimalLength | AI/Lyrics/app.py:34 | one digit exactly below 10, two exactly for 10..99 |
| Timestamp.LeadingZero | AI/Lyrics/app.py:34 | the padding zero does not change the value read back |
| Timestamp.Pad2Digits | AI/Lyrics/app.py:34 | `{:02d}` prints only digits: exactly two below 100, the full number (3+ digits) above, never truncated, and reads back as the value |
| Timestamp.ParseFields | AI/Lyrics/app.py:34 | the layout `[m:s.c]` with numeric fields reads back field by field |
| Timestamp.FormatParses | AI/Lyrics/transcribe.py:6-12 | the timestamp reads back into exactly the minutes, seconds and hundredths of the start time |
| Timestamp.FormatInjective | AI/Lyrics/app.py:30-34 | two start times print alike exactly when their clock fields agree |
| Timestamp.HundredthsTruncate | AI/Lyrics/app.py:33 | hundredths are the floor of the sub-second part (truncation, not rounding) |
| Timestamp.DaysDropped | AI/Lyrics/app.py:31-32 | adding whole days to a start time does not change its timestamp |
| Timestamp.WithinOneDay | AI/Lyrics/app.py:32 | below one day, minutes * 60 + seconds is the whole number of seconds |
| Timestamp.FormatWidth | AI/Lyrics/app.py:34 | the stamp is bracketed, 10 characters exactly when minutes < 100, with a single `]` at its end |
| Timestamp.SampleZero | AI/Lyrics/app.py:30-34 | start 0 prints `[00:00.00]` |
| Timestamp.SampleTruncation | AI/Lyrics/app.py:33 | 65.256 s prints `[01:05.25]` |
| Timestamp.SampleJustUnderOneSecond | AI/Lyrics/app.py:33 | 0.999999 s prints `[00:00.99]` |
| Timestamp.SampleOneHour | AI/Lyrics/app.py:32 | one hour prints `[60:00.00]` |
| Timestamp.SampleHundredMinutes | AI/Lyrics/app.py:34 | 100 minutes prints the wider `[100:00.00]` |
| Timestamp.SampleDayDropped | AI/Lyrics/app.py:31-32 | one day and 1.5 s prints `[00:01.50]` |
| Text.TrimIsMaximal | AI/Lyrics/app.py:60 | `strip()` removes exactly the leading and trailing whitespace runs; the result is a slice of the input with no whitespace at either end, empty exactly for all-whitespace input |
| Text.TrimCovers | AI/Lyrics/app.py:60 | every non-whitespace character survives `strip()` in place |
| Text.TrimIdempotent | AI/Lyrics/app.py:60 | stripping twice equals stripping once |
| Text.TrimKeepsClean | AI/Lyrics/app.py:60 | a string with no whitespace at either end is left unchanged |
| Text.Trim | AI/Lyrics/app.py:60 | `strip(chars)`: drops the leading run and the trailing run of characters `drop` selects (properties in `TrimIsMaximal`) |
| Text.Strip | AI/Lyrics/app.py:60 | `str.strip()`: `Trim` with Python's `isspace` characters |
| Text.Split | Test/test_smb_fetch.py:93 | `split(sep)` yields at least one piece and no piece contains `sep` |
| Text.JoinSplit | Test/test_smb_fetch.py:104 | joining the pieces of `split(sep)` with `sep` gives the string back |
| Text.SplitJoin | AI/Lyrics/app.py:72 | splitting a `sep`-join of sep-free pieces gives the pieces back |
| Text.JoinLength | AI/Lyrics/app.py:72 | the joined length is the sum of the pieces plus one separator between each pair |
| Text.Join | AI/Lyrics/app.py:72 | `sep.join(parts)`: the parts in order with `sep` between neighbours, empty for no parts |
| Text.FirstField | Test/test_smb_fetch.py:93 | `split(sep)[0]` is the longest sep-free prefix, the whole string when `sep` is absent |
| Text.SplitHead | Test/test_smb_fetch.py:93 | the first piece of `split(sep)` is that prefix |
| Text.SplitOnce | Test/debug_db_tables.py:13 | `split('=', 1)` gives two pieces exactly when `=` occurs, split at its first occurrence, and otherwise the string itself |
| Text.SplitOnceJoins | Test/debug_db_tables.py:13 | rejoining the pieces of `split('=', 1)` gives the string back |
| Text.ReplaceChar | Test/test_smb_fetch.py:121 | `replace(a, b)` keeps the length, maps each `a` to `b` and leaves no `a` behind |
| Text.RemoveAll | Test/test_smb_fetch.py:93 | `replace(pattern, "")` never lengthens the string |
| Text.RemoveAllKeepsPrefix | Test/test_smb_fetch.py:93 | a prefix in which no occurrence of the pattern starts is kept unchanged |
| Text.Contains | Test/migrations/upgrade_db_v1.2_add_lyrics.py:20 | `needle in s` for strings: `needle` occurs at some position of `s` |
| LyricsService.Startup | AI/Lyrics/app.py:18-25 | the model size is `WHISPER_MODEL` when set, else `tiny`; the model is loaded exactly when the constructor succeeds |
| LyricsService.CheckHealth | AI/Lyrics/app.py:36-40 | 503 exactly when no model is loaded, otherwise `ok` with the model size |
| LyricsService.EntryOf | AI/Lyrics/app.py:59-64 | one `segments` entry: the formatted start and the stripped text |
| LyricsService.TranscribeAudio | AI/Lyrics/app.py:42-77 | 503 with no model (checked first), 404 for a missing file, 500 with the exception text when transcription raises at once or mid-iteration; otherwise the language, its probability, one entry per segment in order (timestamp and stripped text) and the entries' texts joined by spaces |
| LyricsService.CollectSegments | AI/Lyrics/app.py:55-65 | the loop builds the entries that map each segment in order, and the text list that holds each entry's text |
| LyricsService.FullTextSplitsBack | AI/Lyrics/app.py:72 | when no stripped text contains a space, the full text splits back into the segment texts |
| LyricsCli.ParseArgs | AI/Lyrics/transcribe.py:46-52 | fewer than two arguments exit with 1; otherwise the audio path is `argv[1]` and the model is `argv[2]` or `tiny` |
| LyricsCli.ExtraArgumentsIgnored | AI/Lyrics/transcribe.py:51-52 | arguments after the model size change nothing |
| LyricsCli.Transcribe | AI/Lyrics/transcribe.py:14-44 | `None` when the model fails to load or the file is missing; an engine exception escapes; otherwise one line per segment, in order, the timestamp followed by the stripped text |
| LyricsCli.LrcLineParses | AI/Lyrics/transcribe.py:38-40 | every LRC line splits after its first `]` into the start's clock fields and the stripped text, whatever the minutes width |
| LyricsCli.LrcLineShape | AI/Lyrics/transcribe.py:40 | the line starts with the timestamp, and below 100 minutes the text starts at column 10 |
| LyricsCli.LrcLine | AI/Lyrics/transcribe.py:38-40 | one LRC line: the formatted start followed directly by the stripped text |
| SmbFetch.GetMediaInfo | Test/test_smb_fetch.py:23-88 | a record exactly when the database does not fail, a media row exists, its credential id is truthy, and the credential row exists with auth data that decodes to a JSON object; the record carries the rows' fields and the `username` and `password` values as decoded (strings or not), each defaulting to the empty string |
| SmbFetch.AuthField | Test/test_smb_fetch.py:67-68 | `auth_data.get(key, "")`: the decoded value, string or not, else the empty string |
| SmbFetch.NormalizeHost | Test/test_smb_fetch.py:91-93 | a host starting with `smb://` loses every `smb://` and keeps the text before the first `/`; any other host is kept (properties in `HostFromUrl`, `RepeatedScheme`) |
| SmbFetch.UrlPath | Test/test_smb_fetch.py:103 | `urlparse(url).path` for an `smb://` URL: after the network location (which ends at the first `/`, `?` or `#`) up to the first `?` or `#` |
| SmbFetch.ShareName | Test/test_smb_fetch.py:100-112 | the first `/`-segment of the slash-stripped URL path for an `smb://` source, else the first segment of the source with `\` read as `/`; no fallback for an `smb://` source (properties in `ShareFromUrl`, `NoShareInUrl`, `ShareFromPlainPath`) |
| SmbFetch.TreePath | Test/test_smb_fetch.py:137 | `\\host\share` (property in `TreePathSplits`) |
| SmbFetch.DownloadFile | Test/test_smb_fetch.py:90-137 | gives up exactly when no share name results; otherwise connects to the normalised host on port 445 with the record's credentials, the share, the tree path `\\host\share` and the backslash file path |
| SmbFetch.RemoveLeadingScheme | Test/test_smb_fetch.py:93 | `replace("smb://", "")` removes a leading scheme like any other occurrence |
| SmbFetch.UrlHost | Test/test_smb_fetch.py:91-93 | an `smb://` host becomes the first `/`-field of the host with every scheme removed |
| SmbFetch.HostFromUrl | Test/test_smb_fetch.py:91-93 | `smb://name` and `smb://name/rest` both give `name`, for a name with no `/` and no `:`; a host with a port such as `smb://nas:445/...` is outside this lemma |
| SmbFetch.RepeatedScheme | Test/test_smb_fetch.py:93 | a doubled `smb://smb://` prefix still gives the plain host name |
| SmbFetch.ShareFromUrl | Test/test_smb_fetch.py:101-106 | for `smb://host//…/share/...` the share is the first path segment after any number of slashes |
| SmbFetch.ShareFromPath | Test/test_smb_fetch.py:104 | stripping the slashes of a path and splitting on `/` gives the first segment |
| SmbFetch.NoShareInUrl | Test/test_smb_fetch.py:101-112 | an `smb://` URL with no path segment gives no share, and there is no fallback |
| SmbFetch.ShareFromPlainPath | Test/test_smb_fetch.py:108-112 | a non-URL source `share/rest` or `share\rest` gives its first segment |
| SmbFetch.LeadingSeparatorGivesNoShare | Test/test_smb_fetch.py:108-116 | a source starting with `/` or `\` (a UNC path) gives an empty share, so the download gives up |
| SmbFetch.TreePathSplits | Test/test_smb_fetch.py:137 | the tree path splits on `\` into two empty fields, the host and the share |
| Environment.Get | Test/debug_db_tables.py:17-20 | the variable's value when set, otherwise the default |
| Environment.Accepts | Test/debug_db_tables.py:14 | `os.environ[key] = val` goes through exactly when the key is non-empty and holds no `=` or NUL and the value holds no NUL |
| Environment.IsSecret | Test/migrations/upgrade_db_v1.2_add_lyrics.py:20 | `"PASSWORD" in key or "KEY" in key`, case-sensitive |
| Environment.Report | Test/migrations/upgrade_db_v1.2_add_lyrics.py:20-23 | the report line `  Loaded key=value`, with `***` for a secret key (property in `ReportMasking`) |
| Environment.ConnectionSettings | Test/migrations/upgrade_db_v1.2_add_lyrics.py:37-40 | host, user, password and database come from `POSTGRES_*`, defaulting to postgres, postgres, password, webmusic |
| Environment.Classify | Test/debug_db_tables.py:12-13 | a line is skipped exactly when it strips to nothing or starts with `#`; otherwise it is unpaired exactly when its stripped form has no `=`, and a pair is split at the first `=` |
| Environment.StrictFrom | Test/debug_db_tables.py:11-14 | the strict loop from line `i`: skips, assigns accepted pairs, and stops at the first unpaired line or refused pair with the assignments made so far |
| Environment.StrictLoad | Test/migrations/upgrade_db_v1.2_add_lyrics.py:29-34 | the strict loop over a whole file (the same loop as Test/debug_db_tables.py:11-14) |
| Environment.LenientFrom | Test/migrations/upgrade_db_v1.2_add_lyrics.py:13-23 | the lenient loop from line `i`: skips blank, comment and unpaired lines, assigns and reports accepted pairs, stops at a refused pair |
| Environment.LenientLoad | Test/migrations/upgrade_db_v1.2_add_lyrics.py:10-24 | the lenient loop over a whole file |
| Environment.Writes | Test/debug_db_tables.py:14 | the assignments of the lines from `i` on as one map, a later line for the same key winning (properties in `LastAssignmentWins`, `NotWritten`) |
| Environment.Environ.LoadStrict | Test/debug_db_tables.py:9-14 | the in-place strict loop leaves exactly the environment and failure of the strict specification |
| Environment.Environ.LoadLenient | Test/migrations/upgrade_db_v1.2_add_lyrics.py:10-24 | the in-place lenient loop leaves exactly the environment, report log and failure of the lenient specification |
| Environment.StrictFailsIff | Test/debug_db_tables.py:11-14 | the strict pass fails exactly when some line is neither skipped nor a pair `putenv` accepts |
| Environment.LenientFailsIff | Test/migrations/upgrade_db_v1.2_add_lyrics.py:13-18 | the lenient pass fails exactly when `putenv` refuses some pair |
| Environment.StrictLoadsWrites | Test/debug_db_tables.py:11-14 | a clean strict pass leaves the old environment overlaid with the file's assignments |
| Environment.LenientLoadsWrites | Test/migrations/upgrade_db_v1.2_add_lyrics.py:13-18 | a clean lenient pass leaves the old environment overlaid with the file's assignments |
| Environment.LastAssignmentWins | Test/debug_db_tables.py:14 | a key takes the value of its last assignment in the file |
| Environment.NotWritten | Test/debug_db_tables.py:14 | a key the file never assigns is not written |
| Environment.LoadedLookup | Test/debug_db_tables.py:14-20 | after a clean load a lookup gives the file's last value, else the old value, else the default |
| Environment.SecondPassChangesNothing | Test/migrations/upgrade_db_v1.2_add_lyrics.py:29-34 | after a clean lenient pass, a clean strict pass over the same lines leaves the environment unchanged |
| Environment.UnpairedLineStopsStrictPass | Test/migrations/upgrade_db_v1.2_add_lyrics.py:33 | a line without `=` that the lenient pass tolerated still stops the strict pass |
| Environment.StrictImpliesLenient | Test/migrations/upgrade_db_v1.2_add_lyrics.py:15-18 | whatever the strict pass accepts the lenient pass accepts, with the same environment |
| Environment.ReportMasking | Test/migrations/upgrade_db_v1.2_add_lyrics.py:20-23 | a key containing `PASSWORD` or `KEY` is reported the same whatever its value; any other key ends its report with the value |
| DebugDbTables.LoadEnvFile | Test/debug_db_tables.py:9-14 | no file leaves the environment unchanged; otherwise the result is the strict pass over the file's lines |
| DebugDbTables.SettingsAfterLoad | Test/debug_db_tables.py:16-20 | after a clean load, host and database are the file's last values, else the old ones, else the defaults |
| AddLyricsMigration.LoadEnvironment | Test/migrations/upgrade_db_v1.2_add_lyrics.py:10-34 | a missing file exits with 1 and changes nothing; otherwise the lenient pass runs with its log, and if it is clean the strict pass runs; the first exception stops the script with the assignments made so far |
| AddLyricsMigration.ReadyIff | Test/migrations/upgrade_db_v1.2_add_lyrics.py:10-34 | both passes get through exactly when every line is blank, a comment or an accepted pair; the environment is then the old one overlaid with the file's assignments |

## Left out

- Speech recognition itself (`WhisperModel`, `model.transcribe`) is a foreign library. Its outcome is an input (`Whisper.Run`): it raises at once, or it yields segments and may then raise.
- Timestamp.Format: defined for every start time. `timedelta(seconds=...)` (AI/Lyrics/app.py:31, AI/Lyrics/transcribe.py:8) raises `OverflowError` beyond 999,999,999 days; the service would answer 500 and the command-line script would let it escape. Such starts are not modelled.
- Timestamp.DaysDropped: holds for every number of days in the model, while Python's `timedelta` only reaches 999,999,999 days (see `Timestamp.Format`).
- Segment start times are whole microseconds. The rounding of a float number of seconds to microseconds by `timedelta(seconds=...)` is not modelled, and neither are negative starts.
- `language_probability` is passed through as a `real`. The CLI's `:.2f` rendering of it is printed output and is left out.
- Printing and logging (`print`, `logger`) are left out. The only exception is the lenient loader's `Loaded key=value` report lines, which are modelled as a log.
- `LyricsService.TranscribeAudio` delegates its loop to `CollectSegments`, which drains the generator before a mid-iteration fault is reported. The reply is the same as the source's, because the partial lists are dropped either way.
- `transcribe.py` discards the return value of `transcribe` at line 56. `LyricsCli.Transcribe` models the function itself.
- HTTP routing, request validation and the `TranscriptionRequest` body are left out. `os.path.exists` becomes a boolean parameter.
- `get_media_info`: the connection, the queries and `json.loads` are inputs (`databaseFails`, the rows, `authData`). `authData` is `None` when `AuthData` does not decode to a JSON object; a value that is not a string is carried as its JSON text. `load_dotenv` and the module's `DB_*` defaults (`Test/test_smb_fetch.py:15-21`) are left out.
- `download_file` after the tree path is left out: the SMB connection, session, tree connect, the single 1024-byte read and the cleanup are network I/O. The source has no chunked read loop.
- SmbFetch.UrlPath: approximates `urllib.parse.urlparse` and always returns a path. It does not model the removal of tab, CR and LF characters, or the `ValueError`s `urlparse` raises (malformed IPv6 brackets, or a non-ASCII network location whose NFKC form contains `/`, `?`, `#`, `@` or `:`), which `download_file` would let escape.
- The `.env` files are inputs as lists of lines in Python's universal-newline sense. The file system and `os.path.exists` are parameters. The migration's two passes read the same lines.
- `os.environ[key] = value` is modelled as a map update guarded by `Environment.Accepts`. The variable is not propagated to child processes.
- `Test/migrations/upgrade_db_v1.2_add_lyrics.py` does not compile as written: line 48 is indented unexpectedly, so Python raises `IndentationError` and runs none of the file. The model describes the loader as written above that line.
- The database work after the settings are read (`list_tables`, `upgrade_schema`) is left out.
