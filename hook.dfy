/**
 * Hook: the interception engine loaded into every app process by the hook
 * framework. In the Play Store it rewrites the version fields of the
 * `PackageInfo` that `getPackageInfo` returns for the Play Store itself,
 * with values read from the configuration file through a cache that is
 * reloaded at most once every five seconds while it holds a version code.
 * The engine's process-wide state (the companion object of the source) is
 * the class `Engine`; the clock, the configuration file and the outcome of
 * resolving a platform class are inputs.
 */
module Hook {
  import opened Wrappers
  import opened Text
  import opened ConfigManager

  const PLAY_STORE_PKG: string := "com.android.vending"
  const FALLBACK_VERSION_CODE: int := 99999999
  const FALLBACK_VERSION_NAME: string := "999.999.999"
  /** The least time, in milliseconds, between two reads of the file while a code is cached. */
  const RELOAD_INTERVAL_MS: int := 5000

  // ---------------------------------------------------------------------
  // The configuration cache
  // ---------------------------------------------------------------------

  /** The cached configuration: `cachedVersionCode`, `cachedVersionName`, `lastConfigRead`. */
  datatype Cache = Cache(versionCode: Option<int>, versionName: Option<string>, lastConfigRead: int)

  /** A cached code is a 64-bit value. */
  predicate ValidCache(c: Cache) {
    c.versionCode.Some? ==> LONG_MIN <= c.versionCode.value <= LONG_MAX
  }

  /** The file is not read again: less than the interval has passed and a code is cached. */
  predicate UpToDate(c: Cache, now: int) {
    now - c.lastConfigRead < RELOAD_INTERVAL_MS && c.versionCode.Some?
  }

  /** The cached code after reading `lines`: the last `version_code` line decides, parsed as a Long. */
  function CodeAfter(cached: Option<int>, lines: seq<string>): Option<int> {
    NewCode(cached, LastValue(lines, VERSION_CODE_KEY))
  }

  /** The cached name after reading `lines`: the last `version_name` line decides. */
  function NameAfter(cached: Option<string>, lines: seq<string>): Option<string> {
    NewName(cached, LastValue(lines, VERSION_NAME_KEY))
  }

  /** The code after a read that found `found` as the last `version_code` value. */
  function NewCode(cached: Option<int>, found: Option<string>): Option<int> {
    match found
    case None => cached
    case Some(v) => ParseLong(v)
  }

  /** The name after a read that found `found` as the last `version_name` value. */
  function NewName(cached: Option<string>, found: Option<string>): Option<string> {
    match found
    case None => cached
    case Some(v) => Some(v)
  }

  /**
   * The cache after `readConfig` at time `now`, where `file` is the file's
   * lines, or `None` when it is missing, unreadable or reading it throws.
   */
  function Reload(c: Cache, now: int, file: Option<seq<string>>): Cache {
    if UpToDate(c, now) then c
    else
      match file
      case None => c.(lastConfigRead := now)
      case Some(lines) => Cache(CodeAfter(c.versionCode, lines), NameAfter(c.versionName, lines), now)
  }

  /** `getVersionCode` after the reload: the cached code or the fallback. */
  function EffectiveCode(c: Cache): int {
    c.versionCode.GetOr(FALLBACK_VERSION_CODE)
  }

  /** `getVersionName` after the reload: the cached name or the fallback. */
  function EffectiveName(c: Cache): string {
    c.versionName.GetOr(FALLBACK_VERSION_NAME)
  }

  /** The values handed out are a 64-bit code and the configured or the fallback name. */
  lemma EffectiveValues(c: Cache)
    requires ValidCache(c)
    ensures LONG_MIN <= EffectiveCode(c) <= LONG_MAX
    ensures c.versionCode.None? ==> EffectiveCode(c) == FALLBACK_VERSION_CODE
    ensures c.versionCode.Some? ==> EffectiveCode(c) == c.versionCode.value
    ensures c.versionName.None? ==> EffectiveName(c) == FALLBACK_VERSION_NAME
    ensures c.versionName.Some? ==> EffectiveName(c) == c.versionName.value
  {
  }

  /** A reload keeps the cached code a 64-bit value. */
  lemma ReloadValid(c: Cache, now: int, file: Option<seq<string>>)
    requires ValidCache(c)
    ensures ValidCache(Reload(c, now, file))
  {
  }

  /**
   * Rate limit: while up to date the file is not consulted and nothing
   * changes; otherwise the timestamp becomes `now`, whatever the file holds.
   */
  lemma RateLimit(c: Cache, now: int, file: Option<seq<string>>, other: Option<seq<string>>)
    ensures UpToDate(c, now) ==> Reload(c, now, file) == c == Reload(c, now, other)
    ensures !UpToDate(c, now) ==> Reload(c, now, file).lastConfigRead == now
  {
  }

  /** With no valid code cached, every call reads the file again. */
  lemma NoCodeAlwaysReloads(c: Cache, now: int, lines: seq<string>)
    requires c.versionCode.None?
    ensures Reload(c, now, Some(lines)) == Cache(CodeAfter(None, lines), NameAfter(c.versionName, lines), now)
  {
  }

  /** A reload that finds no readable file changes only the timestamp. */
  lemma FailedReloadKeepsValues(c: Cache, now: int)
    requires !UpToDate(c, now)
    ensures Reload(c, now, None) == c.(lastConfigRead := now)
  {
  }

  /** During a reload, the last `version_code` line sets the code, to `None` when it does not parse. */
  lemma ReloadSetsCode(c: Cache, now: int, lines: seq<string>, i: nat)
    requires !UpToDate(c, now)
    requires i < |lines| && SetsKey(lines[i], VERSION_CODE_KEY)
    requires forall j :: i < j < |lines| ==> !SetsKey(lines[j], VERSION_CODE_KEY)
    ensures Reload(c, now, Some(lines)).versionCode == ParseLong(KeyValue(lines[i]).value.1)
  {
    LastValueAt(lines, VERSION_CODE_KEY, i);
  }

  /** During a reload, the last `version_name` line sets the name. */
  lemma ReloadSetsName(c: Cache, now: int, lines: seq<string>, i: nat)
    requires !UpToDate(c, now)
    requires i < |lines| && SetsKey(lines[i], VERSION_NAME_KEY)
    requires forall j :: i < j < |lines| ==> !SetsKey(lines[j], VERSION_NAME_KEY)
    ensures Reload(c, now, Some(lines)).versionName == Some(KeyValue(lines[i]).value.1)
  {
    LastValueAt(lines, VERSION_NAME_KEY, i);
  }

  /** A key that no line assigns keeps its cached value through a reload. */
  lemma ReloadKeepsAbsent(c: Cache, now: int, lines: seq<string>)
    requires !UpToDate(c, now)
    ensures (forall i :: 0 <= i < |lines| ==> !SetsKey(lines[i], VERSION_CODE_KEY))
      ==> Reload(c, now, Some(lines)).versionCode == c.versionCode
    ensures (forall i :: 0 <= i < |lines| ==> !SetsKey(lines[i], VERSION_NAME_KEY))
      ==> Reload(c, now, Some(lines)).versionName == c.versionName
  {
    LastValueNone(lines, VERSION_CODE_KEY);
    LastValueNone(lines, VERSION_NAME_KEY);
  }

  /** A non-numeric `version_code` clears a code cached before, so every later call reloads. */
  lemma BadCodeClearsCache(code: int, name: Option<string>, last: int, now: int)
    requires now - last >= RELOAD_INTERVAL_MS
    ensures Reload(Cache(Some(code), name, last), now, Some(["version_code=abc"])).versionCode.None?
  {
    BadCodeValue();
    ParseRejects("abc", LONG_MIN, LONG_MAX, 0);
  }

  lemma BadCodeValue()
    ensures LastValue(["version_code=abc"], VERSION_CODE_KEY) == Some("abc")
  {
    BadCodeLine();
    LastValueAt(["version_code=abc"], VERSION_CODE_KEY, 0);
  }

  lemma BadCodeLine()
    ensures SetsKey("version_code=abc", VERSION_CODE_KEY)
    ensures KeyValue("version_code=abc").value.1 == "abc"
  {
    BadCodeLineText();
    TrimClean("abc");
    KeyLine(VERSION_CODE_KEY, "abc");
  }

  lemma BadCodeLineText()
    ensures "version_code=abc" == VERSION_CODE_KEY + "=" + "abc"
  {
  }

  /** Reading again at the same time from the same file changes nothing more. */
  lemma ReloadIdempotent(c: Cache, now: int, file: Option<seq<string>>)
    ensures Reload(Reload(c, now, file), now, file) == Reload(c, now, file)
  {
  }

  /**
   * Once a read at `t1` has left a code in the cache, every call during the
   * next five seconds is served from the cache, whatever the file holds then.
   */
  lemma ServedFromCache(c: Cache, t1: int, f1: Option<seq<string>>, t2: int, f2: Option<seq<string>>)
    requires !UpToDate(c, t1)
    requires Reload(c, t1, f1).versionCode.Some?
    requires t1 <= t2 < t1 + RELOAD_INTERVAL_MS
    ensures Reload(Reload(c, t1, f1), t2, f2) == Reload(c, t1, f1)
  {
  }

  /**
   * A call once the interval has passed sees the file as `readConfig` of
   * ConfigManager reads it, with the code parsed as a Long.
   */
  lemma ReloadAgreesWithConfigManager(c: Cache, now: int, lines: seq<string>)
    requires now - c.lastConfigRead >= RELOAD_INTERVAL_MS
    requires ParseLines(lines).Some?
    ensures Reload(c, now, Some(lines)).versionCode == ParseLong(ParseLines(lines).value.versionCode)
    ensures Reload(c, now, Some(lines)).versionName == Some(ParseLines(lines).value.versionName)
  {
  }

  /** What one `readConfig` call sees: the clock and the file. */
  datatype Observation = Observation(now: int, file: Option<seq<string>>)

  /**
   * When the first reload leaves no code cached, the second one reads the
   * file again: the name can then come from a newer file than the code.
   */
  lemma SecondReadSeesNewFile(c: Cache, first: Observation, second: Observation, lines: seq<string>)
    requires Reload(c, first.now, first.file).versionCode.None?
    requires second.file == Some(lines)
    ensures Reload(Reload(c, first.now, first.file), second.now, second.file).versionName
      == NameAfter(Reload(c, first.now, first.file).versionName, lines)
  {
    NoCodeAlwaysReloads(Reload(c, first.now, first.file), second.now, lines);
  }

  // ---------------------------------------------------------------------
  // Package queries
  // ---------------------------------------------------------------------

  /** The first argument of `getPackageInfo`: a package name, or a `VersionedPackage`
      whose `getPackageName()` gave a String (`Some`) or something else (`None`). */
  datatype PackageArg =
    | ByName(name: string)
    | ByVersionedPackage(packageName: Option<string>)

  /** The package name the hook extracts from the argument, if any. */
  function QueriedPackage(arg: PackageArg): Option<string> {
    match arg
    case ByName(name) => Some(name)
    case ByVersionedPackage(packageName) => packageName
  }

  /** The part of a `PackageInfo` that the hook may rewrite, and some of the rest. */
  class PackageInfo {
    var packageName: string
    var longVersionCode: int
    var versionName: Option<string>
    var firstInstallTime: int
    var lastUpdateTime: int
    var requestedPermissions: seq<string>

    constructor (packageName: string, longVersionCode: int, versionName: Option<string>,
                 firstInstallTime: int, lastUpdateTime: int, requestedPermissions: seq<string>)
      ensures this.packageName == packageName && this.longVersionCode == longVersionCode
      ensures this.versionName == versionName && this.firstInstallTime == firstInstallTime
      ensures this.lastUpdateTime == lastUpdateTime && this.requestedPermissions == requestedPermissions
    {
      this.packageName := packageName;
      this.longVersionCode := longVersionCode;
      this.versionName := versionName;
      this.firstInstallTime := firstInstallTime;
      this.lastUpdateTime := lastUpdateTime;
      this.requestedPermissions := requestedPermissions;
    }

    /** Every field other than the two version fields. */
    function OtherFields(): (string, int, int, seq<string>)
      reads this
    {
      (packageName, firstInstallTime, lastUpdateTime, requestedPermissions)
    }
  }

  /** A query the hook rewrites: for the Play Store, with a `PackageInfo` result (`null` stands
      for a result that is not a `PackageInfo`). */
  predicate Rewrites(arg: PackageArg, result: PackageInfo?) {
    QueriedPackage(arg) == Some(PLAY_STORE_PKG) && result != null
  }

  // ---------------------------------------------------------------------
  // The engine
  // ---------------------------------------------------------------------

  class Engine {
    var cachedVersionCode: Option<int>
    var cachedVersionName: Option<string>
    var lastConfigRead: int
    /** Whether the first rewrite, with its before/after diagnostic, has happened. */
    var hasHookedPlayStore: bool

    function Cached(): Cache
      reads this
    {
      Cache(cachedVersionCode, cachedVersionName, lastConfigRead)
    }

    ghost predicate Valid()
      reads this
    {
      ValidCache(Cached())
    }

    constructor ()
      ensures Valid() && Cached() == Cache(None, None, 0) && !hasHookedPlayStore
    {
      cachedVersionCode := None;
      cachedVersionName := None;
      lastConfigRead := 0;
      hasHookedPlayStore := false;
    }

    /** `readConfig`: the rate-limited reload of the cache from the file. */
    method ReadConfig(now: int, file: Option<seq<string>>)
      requires Valid()
      modifies this
      ensures Valid()
      ensures Cached() == Reload(old(Cached()), now, file)
      ensures hasHookedPlayStore == old(hasHookedPlayStore)
    {
      if now - lastConfigRead < RELOAD_INTERVAL_MS && cachedVersionCode.Some? {
        return;
      }
      lastConfigRead := now;
      if file.None? {
        return;
      }
      var lines := file.value;
      ghost var entries := Entries(lines);
      ghost var code0, name0 := cachedVersionCode, cachedVersionName;
      ghost var foundCode: Option<string> := None;
      ghost var foundName: Option<string> := None;
      var code, name := cachedVersionCode, cachedVersionName;
      for i := 0 to |lines|
        invariant foundCode == LastAssigned(entries[..i], VERSION_CODE_KEY)
        invariant foundName == LastAssigned(entries[..i], VERSION_NAME_KEY)
        invariant code == NewCode(code0, foundCode) && name == NewName(name0, foundName)
        invariant code.Some? ==> LONG_MIN <= code.value <= LONG_MAX
        modifies {}
      {
        LastAssignedStep(entries, i, VERSION_CODE_KEY);
        LastAssignedStep(entries, i, VERSION_NAME_KEY);
        match KeyValue(lines[i])
        case Some((key, value)) =>
          if key == VERSION_CODE_KEY {
            code, foundCode := ParseLong(value), Some(value);
          } else if key == VERSION_NAME_KEY {
            name, foundName := Some(value), Some(value);
          }
        case None =>
      }
      assert entries[..|lines|] == entries;
      assert code == CodeAfter(code0, lines) && name == NameAfter(name0, lines);
      cachedVersionCode, cachedVersionName := code, name;
    }

    /** `getVersionCode`: reload, then the cached code or the fallback. */
    method GetVersionCode(now: int, file: Option<seq<string>>) returns (code: int)
      requires Valid()
      modifies this
      ensures Valid()
      ensures Cached() == Reload(old(Cached()), now, file)
      ensures hasHookedPlayStore == old(hasHookedPlayStore)
      ensures code == EffectiveCode(Cached()) && LONG_MIN <= code <= LONG_MAX
    {
      ReadConfig(now, file);
      code := cachedVersionCode.GetOr(FALLBACK_VERSION_CODE);
    }

    /** `getVersionName`: reload, then the cached name or the fallback. */
    method GetVersionName(now: int, file: Option<seq<string>>) returns (name: string)
      requires Valid()
      modifies this
      ensures Valid()
      ensures Cached() == Reload(old(Cached()), now, file)
      ensures hasHookedPlayStore == old(hasHookedPlayStore)
      ensures name == EffectiveName(Cached())
    {
      ReadConfig(now, file);
      name := cachedVersionName.GetOr(FALLBACK_VERSION_NAME);
    }

    /**
     * `modifyPackageInfo`: overwrites the two version fields of `info` in
     * place. Each getter reloads on its own, so the code comes from the
     * reload at `first` and the name from the one at `second`.
     */
    method ModifyPackageInfo(info: PackageInfo, first: Observation, second: Observation)
      requires Valid()
      modifies this, info
      ensures Valid()
      ensures Cached() == Reload(Reload(old(Cached()), first.now, first.file), second.now, second.file)
      ensures hasHookedPlayStore == old(hasHookedPlayStore)
      ensures info.longVersionCode == EffectiveCode(Reload(old(Cached()), first.now, first.file))
      ensures info.versionName == Some(EffectiveName(Cached()))
      ensures info.OtherFields() == old(info.OtherFields())
    {
      var code := GetVersionCode(first.now, first.file);
      info.longVersionCode := code;
      var name := GetVersionName(second.now, second.file);
      info.versionName := Some(name);
    }

    /**
     * The body of `afterHookedMethod` for both `getPackageInfo` signatures.
     * Only a query for the Play Store with a `PackageInfo` result is
     * rewritten, on every such call; the first one also emits the
     * before/after diagnostic (`logged`) and sets `hasHookedPlayStore`.
     */
    method AfterHookedMethod(arg: PackageArg, result: PackageInfo?, first: Observation, second: Observation)
      returns (logged: bool)
      requires Valid()
      modifies this, result
      ensures Valid()
      ensures old(hasHookedPlayStore) ==> hasHookedPlayStore
      ensures !Rewrites(arg, result) ==>
        && !logged && unchanged(this)
        && (result != null ==> unchanged(result))
      ensures Rewrites(arg, result) ==>
        && Cached() == Reload(Reload(old(Cached()), first.now, first.file), second.now, second.file)
        && result.longVersionCode == EffectiveCode(Reload(old(Cached()), first.now, first.file))
        && result.versionName == Some(EffectiveName(Cached()))
        && result.OtherFields() == old(result.OtherFields())
        && hasHookedPlayStore
        && logged == !old(hasHookedPlayStore)
    {
      var pkgName := QueriedPackage(arg);
      if pkgName.None? || pkgName.value != PLAY_STORE_PKG {
        return false;
      }
      if result == null {
        return false;
      }
      if !hasHookedPlayStore {
        ModifyPackageInfo(result, first, second);
        logged := true;
        hasHookedPlayStore := true;
      } else {
        ModifyPackageInfo(result, first, second);
        logged := false;
      }
    }
  }

  // ---------------------------------------------------------------------
  // handleLoadPackage
  // ---------------------------------------------------------------------

  /** The hooks `handleLoadPackage` installs. */
  datatype InstalledHook =
    | ModuleStatusHook               // forces the module's "is active" probe to answer true
    | PackageInfoByNameHook          // getPackageInfo(String, int)
    | PackageInfoByVersionedHook     // getPackageInfo(VersionedPackage, int)

  /**
   * The hooks installed in the process of `packageName`: the module's own
   * process (`moduleId`) gets only the status hook; the Play Store gets the
   * by-name hook, and the `VersionedPackage` hook when that class resolves;
   * every other process gets none.
   */
  function HandleLoadPackage(packageName: string, moduleId: string, versionedPackageResolves: bool)
    : (hooks: seq<InstalledHook>)
    ensures ModuleStatusHook in hooks <==> packageName == moduleId
    ensures PackageInfoByNameHook in hooks <==> packageName != moduleId && packageName == PLAY_STORE_PKG
    ensures PackageInfoByVersionedHook in hooks
      <==> packageName != moduleId && packageName == PLAY_STORE_PKG && versionedPackageResolves
    ensures ModuleStatusHook in hooks ==> hooks == [ModuleStatusHook]
  {
    if packageName == moduleId then [ModuleStatusHook]
    else if packageName != PLAY_STORE_PKG then []
    else [PackageInfoByNameHook] + (if versionedPackageResolves then [PackageInfoByVersionedHook] else [])
  }

  /** The status hook's `beforeHookedMethod`: the probe answers true whatever it would have answered. */
  function ModuleActivated(original: bool): (r: bool)
    ensures r
  {
    true
  }

  /** Whether one of the installed hooks sees a query with this argument shape. */
  predicate Intercepts(hooks: seq<InstalledHook>, arg: PackageArg) {
    match arg
    case ByName(_) => PackageInfoByNameHook in hooks
    case ByVersionedPackage(_) => PackageInfoByVersionedHook in hooks
  }

  /**
   * Queries are intercepted only inside the Play Store: by name always, with
   * a `VersionedPackage` only where that class resolves.
   */
  lemma InterceptsOnlyInPlayStore(packageName: string, moduleId: string, resolves: bool, arg: PackageArg)
    ensures Intercepts(HandleLoadPackage(packageName, moduleId, resolves), arg)
      <==> packageName != moduleId && packageName == PLAY_STORE_PKG && (arg.ByName? || resolves)
  {
  }
}
