# PlayVersionSpoofer core, modelled in Dafny

PlayVersionSpoofer is a hook-framework module for Android. Inside the Play
Store process it rewrites the version code and the version name of the
`PackageInfo` that `getPackageInfo` returns for the Play Store itself. The
values come from a small configuration file of `key=value` lines. The
companion app writes that file and checks a release service for newer builds
of the module.

This project models three parts of the Kotlin code and proves their
properties:

- `ConfigManager` (`config_manager.dfy`): reading the configuration file and
  writing it.
  - Reading splits each line at its first `=`, trims both halves and keeps the
    last `version_code`/`version_name` assignment.
  - `readConfig` is a loop method proved against the specification function
    `ParseLines`.
  - `writeConfig` tries the privileged shell command first, then the direct
    write.
- `Hook` (`hook.dfy`): the interception engine. Its process-wide state is the
  class `Engine`.
  - `ReadConfig` is the rate-limited reload: the file is skipped for 5000 ms
    only while a code is cached. It is proved against the function `Reload`.
  - `GetVersionCode`/`GetVersionName` add the fallback constants.
  - `ModifyPackageInfo` and `AfterHookedMethod` rewrite a `PackageInfo`
    object in place. The two getters reload separately, so each reload has
    its own clock and file (`Observation`), and the code and the name may
    come from different reads.
  - `HandleLoadPackage` decides which hooks a process gets.
- `UpdateChecker` (`update_checker.dfy`): choosing the release to offer.
  - `IsNewerVersion` compares either build numbers (`test-N` tags) or
    `major.minor.patch` triples. The triple comparison is proved equal to the
    strict lexicographic order `LexGreater`.
  - `CheckForUpdates` is the nested selection loop, proved against
    `SelectRelease` (the first qualifying record) and `FirstApk` (the first
    `.apk` asset).
  - `DownloadUrl` picks the URL that `downloadApk` opens.

`text.dfy` models the Kotlin library functions the code relies on:

- `trim` (JVM whitespace), `readLines`, `split` with and without a limit,
  `removePrefix`, `startsWith`/`endsWith`;
- `toIntOrNull`/`toLongOrNull`, including the 32- and 64-bit ranges.

`wrappers.dfy` holds `Option`.

Inputs to the model:

- The file arrives as its lines (`None` when it is missing, unreadable or
  reading it throws).
- The clock is a parameter `now`.
- The outcomes of the shell command and the direct write are parameters.
- The running build's `VERSION_CODE`/`VERSION_NAME` are parameters.
- Whether the `VersionedPackage` class resolves is a parameter.

Behaviour of the code worth noting:

- `readConfig` accepts empty values.
- The running build's version name is split at `.` without dropping a
  leading `v` (`CurrentNameKeepsV`).
- The reload interval is measured from the last reload attempt the rate
  limit let through, whether or not the file could be read
  (`FailedReloadKeepsValues`).
- If installing the by-name hook throws, the `VersionedPackage` hook is not
  installed either.
- `writeConfig` accepts a line break in either value. The extra lines are
  written to the file and `readConfig` reads them like any other: a name
  `x\nversion_code=2` makes the code read back `2`, since the last
  assignment wins. The round-trip lemmas (`ContentLines`, `RoundTrip`,
  `WriteThenRead`) are stated for values without `\n` or `\r`.

## Model

| member | source | states |
|---|---|---|
| ConfigManager.ReadConfig | app/src/main/kotlin/com/mymod/playspoofer/util/ConfigManager.kt:41-67 | a missing or unreadable file gives no configuration; otherwise the result is `ParseLines` of the lines: the last assignment of each key, present only when both keys are assigned |
| ConfigManager.KeyValueOf | app/src/main/kotlin/com/mymod/playspoofer/util/ConfigManager.kt:50-51 | a line is split at its first `=` only: key and value are the trimmed text before it and after it, and the value may itself contain `=` |
| ConfigManager.NoSeparatorNoKey | app/src/main/kotlin/com/mymod/playspoofer/util/ConfigManager.kt:51 | a line without `=` assigns no key |
| ConfigManager.LastValueNone | app/src/main/kotlin/com/mymod/playspoofer/util/ConfigManager.kt:49-57 | no value is found for a key iff no line assigns it |
| ConfigManager.LastValueAt | app/src/main/kotlin/com/mymod/playspoofer/util/ConfigManager.kt:49-57 | the value found is that of the last line assigning the key |
| ConfigManager.LastValueIgnores | app/src/main/kotlin/com/mymod/playspoofer/util/ConfigManager.kt:51-56 | a line that does not assign a key can be inserted anywhere without changing that key's value |
| ConfigManager.LastAssignedNone | app/src/main/kotlin/com/mymod/playspoofer/util/ConfigManager.kt:49-57 | on parsed lines: nothing found iff no parsed line assigns the key |
| ConfigManager.LastAssignedAt | app/src/main/kotlin/com/mymod/playspoofer/util/ConfigManager.kt:49-57 | on parsed lines: the last assigning line gives the value |
| ConfigManager.LastAssignedIgnores | app/src/main/kotlin/com/mymod/playspoofer/util/ConfigManager.kt:51-56 | on parsed lines: non-assigning lines do not matter |
| ConfigManager.LastAssignedStep | app/src/main/kotlin/com/mymod/playspoofer/util/ConfigManager.kt:52-55 | the loop step: a line assigning the key overwrites the value, any other line keeps it |
| ConfigManager.ParsePresentIff | app/src/main/kotlin/com/mymod/playspoofer/util/ConfigManager.kt:59-63 | a configuration is read iff some line assigns `version_code` and some line assigns `version_name` |
| ConfigManager.ParseIgnores | app/src/main/kotlin/com/mymod/playspoofer/util/ConfigManager.kt:51-56 | lines without `=` and lines with other keys leave the result unchanged |
| ConfigManager.ParseKeepsText | app/src/main/kotlin/com/mymod/playspoofer/util/ConfigManager.kt:53-54 | values are kept as trimmed text: a non-numeric code and an empty name are accepted |
| ConfigManager.ParseTwoLines | app/src/main/kotlin/com/mymod/playspoofer/util/ConfigManager.kt:49-63 | a code line followed by a name line is read as that code and that name |
| ConfigManager.KeyLine | app/src/main/kotlin/com/mymod/playspoofer/util/ConfigManager.kt:52-54 | `version_code=v` and `version_name=v` assign their key the trimmed `v` |
| ConfigManager.WriteConfig | app/src/main/kotlin/com/mymod/playspoofer/util/ConfigManager.kt:72-96 | the direct write is tried iff the shell command ran and exited non-zero; success iff exit code 0 or the direct write succeeded; a failure to start the command is a failure; the direct path writes the two-line content; the shell path writes it followed by `echo`'s newline when it holds no single quote and no backslash, and the text is left unknown otherwise |
| ConfigManager.ContentEchoVerbatim | app/src/main/kotlin/com/mymod/playspoofer/util/ConfigManager.kt:74-77 | the content `echo` receives holds a single quote or a backslash iff one of the two values does |
| ConfigManager.ShellTextUnknownExamples | app/src/main/kotlin/com/mymod/playspoofer/util/ConfigManager.kt:77 | a name with a single quote (`a'b'c`) or a backslash escape (`2.0\nx=y`) leaves the shell path's written text unknown |
| ConfigManager.ContentLines | app/src/main/kotlin/com/mymod/playspoofer/util/ConfigManager.kt:74 | for values without `\n` or `\r`, the content, with or without a trailing newline, is the two lines `version_code=…` and `version_name=…` |
| ConfigManager.RoundTrip | app/src/main/kotlin/com/mymod/playspoofer/util/ConfigManager.kt:49-63 | for values without `\n` or `\r`, reading back the content written for a code and a name gives both, trimmed |
| ConfigManager.WriteThenRead | app/src/main/kotlin/com/mymod/playspoofer/util/ConfigManager.kt:72-96 | for values without `\n` or `\r`: after a successful write (on the shell path, of values without a single quote or a backslash), the text written is known and reading it gives the values written, trimmed |
| ConfigManager.LineBreakInName | app/src/main/kotlin/com/mymod/playspoofer/util/ConfigManager.kt:49-63 | a name written with a line break followed by `version_code=…` (values otherwise without `\n` or `\r`) reads back with that later code and the name's first line |
| Hook.Engine.ReadConfig | app/src/main/kotlin/com/mymod/playspoofer/xposed/Hook.kt:30-58 | the cache becomes `Reload` of the old cache: unchanged while less than 5000 ms have passed and a code is cached; otherwise the timestamp is `now`, the last `version_code` line sets the code (parsed as a Long, `None` when it does not parse) and the last `version_name` line sets the name |
| Hook.Engine.GetVersionCode | app/src/main/kotlin/com/mymod/playspoofer/xposed/Hook.kt:60-63 | reloads, then returns the cached code or 99999999, always a 64-bit value |
| Hook.Engine.GetVersionName | app/src/main/kotlin/com/mymod/playspoofer/xposed/Hook.kt:65-68 | reloads, then returns the cached name or "999.999.999" |
| Hook.Engine.ModifyPackageInfo | app/src/main/kotlin/com/mymod/playspoofer/xposed/Hook.kt:177-182 | sets exactly the two version fields of the object: the code to the effective code after the first reload, the name to the effective name after the second; the cache ends after both reloads; the other fields are unchanged |
| Hook.Engine.AfterHookedMethod | app/src/main/kotlin/com/mymod/playspoofer/xposed/Hook.kt:127-151 | only a Play Store query with a `PackageInfo` result is rewritten, on every call, with the code from the first reload and the name from the second; other queries change nothing; the first rewrite logs and sets the flag, and the flag is never cleared |
| Hook.SecondReadSeesNewFile | app/src/main/kotlin/com/mymod/playspoofer/xposed/Hook.kt:177-182 | when the first reload leaves no code cached, the second reload reads the file again, so the name comes from the file as it is then |
| Hook.Engine.constructor | app/src/main/kotlin/com/mymod/playspoofer/xposed/Hook.kt:21-27 | the engine starts with nothing cached, timestamp 0, flag false |
| Hook.HandleLoadPackage | app/src/main/kotlin/com/mymod/playspoofer/xposed/Hook.kt:70-115 | the module's own process gets only the status hook; the Play Store gets the by-name hook, plus the `VersionedPackage` hook iff that class resolves; other processes get none |
| Hook.ModuleActivated | app/src/main/kotlin/com/mymod/playspoofer/xposed/Hook.kt:79-82 | the activation probe always answers true |
| Hook.InterceptsOnlyInPlayStore | app/src/main/kotlin/com/mymod/playspoofer/xposed/Hook.kt:92-115 | a query is intercepted iff the process is the Play Store (and not the module) and, for a `VersionedPackage` query, the class resolves |
| Hook.EffectiveValues | app/src/main/kotlin/com/mymod/playspoofer/xposed/Hook.kt:17-18 | an empty cached field gives the fallback constant; a cached code is a 64-bit value |
| Hook.ReloadValid | app/src/main/kotlin/com/mymod/playspoofer/xposed/Hook.kt:46 | a reload keeps the cached code within the Long range |
| Hook.RateLimit | app/src/main/kotlin/com/mymod/playspoofer/xposed/Hook.kt:32-36 | while up to date the file is not consulted and nothing changes; otherwise the timestamp becomes `now` whatever the file holds |
| Hook.NoCodeAlwaysReloads | app/src/main/kotlin/com/mymod/playspoofer/xposed/Hook.kt:33 | with no code cached, every call reads the file |
| Hook.FailedReloadKeepsValues | app/src/main/kotlin/com/mymod/playspoofer/xposed/Hook.kt:38-57 | a reload that finds no readable file changes only the timestamp |
| Hook.ReloadSetsCode | app/src/main/kotlin/com/mymod/playspoofer/xposed/Hook.kt:46 | the last `version_code` line sets the cached code to its value parsed as a Long |
| Hook.ReloadSetsName | app/src/main/kotlin/com/mymod/playspoofer/xposed/Hook.kt:47 | the last `version_name` line sets the cached name |
| Hook.ReloadKeepsAbsent | app/src/main/kotlin/com/mymod/playspoofer/xposed/Hook.kt:42-50 | a key that no line assigns keeps its cached value |
| Hook.BadCodeClearsCache | app/src/main/kotlin/com/mymod/playspoofer/xposed/Hook.kt:46 | e.g. a reload of the single line `version_code=abc` clears a cached code (in general: `ReloadSetsCode` with `Text.ParseRejects`) |
| Hook.ReloadIdempotent | app/src/main/kotlin/com/mymod/playspoofer/xposed/Hook.kt:30-58 | a second reload at the same time from the same file changes nothing more |
| Hook.ServedFromCache | app/src/main/kotlin/com/mymod/playspoofer/xposed/Hook.kt:32-35 | once a read leaves a code cached, every call in the next 5000 ms is served from the cache whatever the file holds |
| Hook.ReloadAgreesWithConfigManager | app/src/main/kotlin/com/mymod/playspoofer/xposed/Hook.kt:42-50 | a reload reads the same values as the app's `readConfig`, the code parsed as a Long |
| UpdateChecker.IsNewerVersion | app/src/main/kotlin/com/mymod/playspoofer/util/UpdateChecker.kt:113-148 | a tag not starting with `test-` is newer iff its (major, minor, patch) comes strictly after the running build's in lexicographic order; the comparison never fails |
| UpdateChecker.NewerThanIsLex | app/src/main/kotlin/com/mymod/playspoofer/util/UpdateChecker.kt:136-143 | the `when` chain is exactly the strict lexicographic order on triples |
| UpdateChecker.PrereleaseFlagIgnored | app/src/main/kotlin/com/mymod/playspoofer/util/UpdateChecker.kt:113-148 | the `isPrerelease` argument does not affect the result |
| UpdateChecker.TestTagNewer | app/src/main/kotlin/com/mymod/playspoofer/util/UpdateChecker.kt:115-120 | `test-N` with N an Int is newer iff N is above the current version code |
| UpdateChecker.TestTagUnparsed | app/src/main/kotlin/com/mymod/playspoofer/util/UpdateChecker.kt:116 | a `test-` tag whose remainder `toIntOrNull` rejects (empty, a lone sign, a stray character, out of the `Int` range) is never newer |
| UpdateChecker.TestTagNonNumeric | app/src/main/kotlin/com/mymod/playspoofer/util/UpdateChecker.kt:116 | in particular, `test-` followed by text with a stray non-digit is never newer |
| UpdateChecker.TestTagOutOfRange | app/src/main/kotlin/com/mymod/playspoofer/util/UpdateChecker.kt:116 | in particular, a `test-` build numbered outside the 32-bit `Int` range is never newer, however large |
| UpdateChecker.TestBuildExamples | app/src/main/kotlin/com/mymod/playspoofer/util/UpdateChecker.kt:115-120 | `test-150` is newer than build 100 and `test-50` is not |
| UpdateChecker.UnparsedTestExamples | app/src/main/kotlin/com/mymod/playspoofer/util/UpdateChecker.kt:116 | `test-`, `test--` and `test-3000000000` are not newer than build 100 |
| UpdateChecker.SameVersionNotNewer | app/src/main/kotlin/com/mymod/playspoofer/util/UpdateChecker.kt:136-143 | a tag naming the running build's version is not newer |
| UpdateChecker.VersionOrder | app/src/main/kotlin/com/mymod/playspoofer/util/UpdateChecker.kt:136-143 | on versions, the comparison is a strict total order: equal versions are not newer than each other and of two different versions exactly one is newer |
| UpdateChecker.LexIrreflexive | app/src/main/kotlin/com/mymod/playspoofer/util/UpdateChecker.kt:136-143 | no sequence comes after itself |
| UpdateChecker.LexAsymmetric | app/src/main/kotlin/com/mymod/playspoofer/util/UpdateChecker.kt:136-143 | if `a` comes after `b` then `b` does not come after `a` |
| UpdateChecker.LexTransitive | app/src/main/kotlin/com/mymod/playspoofer/util/UpdateChecker.kt:136-143 | the order is transitive |
| UpdateChecker.LexTotal | app/src/main/kotlin/com/mymod/playspoofer/util/UpdateChecker.kt:136-143 | two sequences of equal length are equal or one comes after the other |
| UpdateChecker.LeadingVIgnored | app/src/main/kotlin/com/mymod/playspoofer/util/UpdateChecker.kt:123 | one leading `v` on a release tag makes no difference |
| UpdateChecker.CurrentNameKeepsV | app/src/main/kotlin/com/mymod/playspoofer/util/UpdateChecker.kt:131-132 | the running build's name keeps a leading `v`, so its major component counts as 0 |
| UpdateChecker.ExtraComponentsIgnored | app/src/main/kotlin/com/mymod/playspoofer/util/UpdateChecker.kt:127-134 | components after the third are ignored |
| UpdateChecker.MissingComponentIsZero | app/src/main/kotlin/com/mymod/playspoofer/util/UpdateChecker.kt:127-134 | a missing or non-numeric component counts as 0 |
| UpdateChecker.VersionText | app/src/main/kotlin/com/mymod/playspoofer/util/UpdateChecker.kt:124-134 | the text `a.b.c` in decimal, each of a, b, c within the `Int` range, is the version (a, b, c) |
| UpdateChecker.NewerExample | app/src/main/kotlin/com/mymod/playspoofer/util/UpdateChecker.kt:122-143 | `v2.0.0` is newer than `1.9.9` |
| UpdateChecker.NotNewerExamples | app/src/main/kotlin/com/mymod/playspoofer/util/UpdateChecker.kt:136-143 | `1.5.0` and `1.4.9` are not newer than `1.5.0` |
| UpdateChecker.CheckForUpdates | app/src/main/kotlin/com/mymod/playspoofer/util/UpdateChecker.kt:54-103 | the result is `SelectRelease`: the report of the first record, in list order, that passes the prerelease filter and is newer, with its first `.apk` asset as download URL; none for an empty list |
| UpdateChecker.SelectNone | app/src/main/kotlin/com/mymod/playspoofer/util/UpdateChecker.kt:54-56 | nothing is selected iff no record qualifies |
| UpdateChecker.SelectAt | app/src/main/kotlin/com/mymod/playspoofer/util/UpdateChecker.kt:59-101 | the first qualifying record is selected, even when a later one has a higher version |
| UpdateChecker.SelectedQualifies | app/src/main/kotlin/com/mymod/playspoofer/util/UpdateChecker.kt:59-101 | what is selected is the report of a qualifying record with no qualifying record before it |
| UpdateChecker.NoPrereleaseWhenExcluded | app/src/main/kotlin/com/mymod/playspoofer/util/UpdateChecker.kt:61-64 | with prereleases excluded, the selected release is never a prerelease |
| UpdateChecker.FirstApkNone | app/src/main/kotlin/com/mymod/playspoofer/util/UpdateChecker.kt:73-84 | there is no download URL iff no asset name ends with `.apk` |
| UpdateChecker.FirstApkAt | app/src/main/kotlin/com/mymod/playspoofer/util/UpdateChecker.kt:76-83 | the download URL is that of the first asset whose name ends with `.apk` |
| UpdateChecker.AssetExample | app/src/main/kotlin/com/mymod/playspoofer/util/UpdateChecker.kt:76-83 | `notes.txt` is passed over and `app-release.apk` picked |
| UpdateChecker.DownloadTarget | app/src/main/kotlin/com/mymod/playspoofer/util/UpdateChecker.kt:163 | the URL opened is the first `.apk` asset's URL when there is one, else the release page |
| Text.Trim | app/src/main/kotlin/com/mymod/playspoofer/util/ConfigManager.kt:52-54 | `trim()` leaves no whitespace at either end and never lengthens the text |
| Text.TrimPadded | app/src/main/kotlin/com/mymod/playspoofer/util/ConfigManager.kt:52-54 | trimming text padded with whitespace gives the clean middle |
| Text.TrimClean | app/src/main/kotlin/com/mymod/playspoofer/util/ConfigManager.kt:52-54 | trimming text with no whitespace at its ends changes nothing |
| Text.SplitAtFirst | app/src/main/kotlin/com/mymod/playspoofer/util/ConfigManager.kt:50-51 | `split("=", limit = 2)` has two parts iff the line holds `=`; then the line is front, `=`, back, with no `=` in the front |
| Text.SplitAtFirstOf | app/src/main/kotlin/com/mymod/playspoofer/util/ConfigManager.kt:50 | a line `front=back` with no `=` in the front splits into exactly those parts |
| Text.LinesStep | app/src/main/kotlin/com/mymod/playspoofer/util/ConfigManager.kt:49 | `readLines` yields the text before a `"\n"`, then the lines of the rest |
| Text.SingleLine | app/src/main/kotlin/com/mymod/playspoofer/util/ConfigManager.kt:49 | a non-empty text without a line break, with or without one final newline, is a single line |
| Text.Split | app/src/main/kotlin/com/mymod/playspoofer/util/UpdateChecker.kt:124 | `split(".")` yields at least one part and no part holds the separator |
| Text.JoinSplit | app/src/main/kotlin/com/mymod/playspoofer/util/UpdateChecker.kt:124 | joining the parts of a split gives the text back |
| Text.SplitJoin | app/src/main/kotlin/com/mymod/playspoofer/util/UpdateChecker.kt:124 | splitting a join of separator-free parts gives the parts back |
| Text.SplitCons | app/src/main/kotlin/com/mymod/playspoofer/util/UpdateChecker.kt:124 | a separator-free front followed by the separator comes off as the first part, and the rest is split on |
| Text.RemovePrefix | app/src/main/kotlin/com/mymod/playspoofer/util/UpdateChecker.kt:123 | `removePrefix` drops exactly one copy of the prefix when present and changes nothing otherwise |
| Text.ParseLong | app/src/main/kotlin/com/mymod/playspoofer/xposed/Hook.kt:46 | `toLongOrNull()` only yields values in the 64-bit range |
| Text.ParseInt | app/src/main/kotlin/com/mymod/playspoofer/util/UpdateChecker.kt:116 | `toIntOrNull()` only yields values in the 32-bit range |
| Text.ParseShow | app/src/main/kotlin/com/mymod/playspoofer/util/UpdateChecker.kt:116 | the decimal text of any in-range number parses back to that number |
| Text.ParseRejects | app/src/main/kotlin/com/mymod/playspoofer/util/UpdateChecker.kt:116 | text holding a character that is neither a digit nor a leading sign does not parse |
| Text.ParseShowOutOfRange | app/src/main/kotlin/com/mymod/playspoofer/util/UpdateChecker.kt:116 | the decimal form of a number outside the target type's range does not parse |

## Left out

- HTTP fetch and JSON decoding in `checkForUpdates` are not modelled. The model receives decoded records.
  - A non-200 response, malformed JSON or a thrown exception gives `Result.failure`; the model covers only the success value.
  - A missing mandatory field gives `Result.failure` only in a record the scan reaches: `prerelease` in every record up to the one returned; `tag_name`, `html_url` and `published_at` only in records that are not skipped as prereleases; an asset's `name` only up to the first `.apk` asset, whose `browser_download_url` alone is read. Records after the returned one are never read.
  - The model's records are fully decoded, so it cannot show that a malformed record after the chosen one, or a malformed field the scan skips, is harmless.
  - JSON coercion by `optString` (a JSON `null` read as text) is not modelled: a field is either present text or absent.
- Intent launching in `openReleasePage` and `downloadApk` is not modelled. Only the URL choice is.
- Shell and file I/O are not modelled: the `su` command, `waitFor`, `writeText` and `File.exists`/`canRead`/`readLines`. Their outcomes are parameters.
- ConfigManager.WriteConfig: the text the shell path writes is known only for content without a single quote or a backslash (`written` is `None` otherwise). A quote ends the shell's quoting and the shell then interprets the rest of the command. A backslash is implementation-defined for `echo`: dash, mksh and XSI `echo` turn `\n` into a line break and stop at `\c`. Neither is modelled.
- ConfigManager.WriteThenRead: on the shell path the round trip is promised only when neither value contains a single quote or a backslash, for the same reasons.
- `deleteConfig` is not modelled. It is a single shell command whose result is its exit status.
- `detectPlayStoreVersion` is not modelled. It is a package-manager lookup.
- Hook-framework reflection is not modelled: `findAndHookMethod`, `callMethod`, `Class.forName`. The query argument is the datatype `PackageArg`, and resolving the `VersionedPackage` class is a boolean. A hook installation that throws is not modelled.
- Logging and `logVersion` are not modelled. The first-rewrite diagnostic is the `logged` result of `AfterHookedMethod`. The "start hooking" log line in `handleLoadPackage` is not modelled.
- `@Volatile` visibility and races between threads on the cache and the flag are not modelled. The model is single-threaded.
- Hook.Engine.ReadConfig: reads the lines into locals and stores both fields after the loop, where the source assigns the fields as it goes. The two are indistinguishable without concurrency, because `readLines` reads the whole file before the loop and no step of the loop throws.
- Hook.RateLimit: `now - lastConfigRead` is computed on unbounded integers, so the 64-bit overflow of that difference for extreme clock values is not modelled.
- Text.ParseInt: Unicode digits other than ASCII `0`-`9`, which `toIntOrNull` also accepts, are not modelled. The same holds for Text.ParseLong.
- `PackageInfo.longVersionCode` is a plain field. The platform's split into `versionCode` and `versionCodeMajor` is not modelled.
- The catch-all `return true` of `isNewerVersion` cannot be reached. Every parse in that block falls back to a value, so the model's comparison is total.
- BuildConfig values (`APPLICATION_ID`, `VERSION_CODE`, `VERSION_NAME`) are parameters.
- MainActivity.kt, SettingsActivity.kt and SharedPreference.kt are not part of this model. They hold UI code and preference glue.
