/**
 * UpdateChecker: choosing the release to offer from the list the release
 * service returns, newest first. The HTTP request and the JSON decoding are
 * outside the model: `CheckForUpdates` receives the decoded records. The
 * running build's version code and name are an input (`CurrentVersion`).
 */
module UpdateChecker {
  import opened Wrappers
  import opened Text

  const TEST_PREFIX: string := "test-"
  const APK_SUFFIX: string := ".apk"

  /** One asset of a release: its file name and its download URL. */
  datatype Asset = Asset(name: string, downloadUrl: string)

  /**
   * A decoded release record. `name` and `body` are `None` when the record
   * has no such field; `assets` is `None` when it has no asset list.
   */
  datatype ReleaseRecord = ReleaseRecord(
    tagName: string,
    name: Option<string>,
    body: Option<string>,
    htmlUrl: string,
    isPrerelease: bool,
    publishedAt: string,
    assets: Option<seq<Asset>>)

  /** `ReleaseInfo`: what `UpdateChecker` reports about the release it picked. */
  datatype ReleaseInfo = ReleaseInfo(
    tagName: string,
    name: string,
    body: string,
    htmlUrl: string,
    downloadUrl: Option<string>,
    isPrerelease: bool,
    publishedAt: string)

  /** The running build: `BuildConfig.VERSION_CODE` and `BuildConfig.VERSION_NAME`. */
  datatype CurrentVersion = CurrentVersion(versionCode: int, versionName: string)

  // ---------------------------------------------------------------------
  // Versions
  // ---------------------------------------------------------------------

  /** A `major.minor.patch` triple. */
  datatype Version = Version(major: int, minor: int, patch: int) {
    function Components(): seq<int> {
      [major, minor, patch]
    }
  }

  /** Component `i` of a split version text: a missing or non-numeric component is 0. */
  function Component(parts: seq<string>, i: nat): int {
    if i < |parts| then ParseInt(parts[i]).GetOr(0) else 0
  }

  /** The first three components of a split version text; further ones are ignored. */
  function VersionOf(parts: seq<string>): Version {
    Version(Component(parts, 0), Component(parts, 1), Component(parts, 2))
  }

  /** The version a release tag names: one leading 'v' dropped, then split at '.'. */
  function TagVersion(tagName: string): Version {
    VersionOf(Split(RemovePrefix(tagName, "v"), '.'))
  }

  /** The running build's version: its name split at '.', with no 'v' dropped. */
  function CurrentVersionOf(versionName: string): Version {
    VersionOf(Split(versionName, '.'))
  }

  /** Strict lexicographic order on sequences of equal length: `a` comes after `b`. */
  predicate LexGreater(a: seq<int>, b: seq<int>)
    requires |a| == |b|
  {
    |a| > 0 && (a[0] > b[0] || (a[0] == b[0] && LexGreater(a[1..], b[1..])))
  }

  lemma {:induction false} LexIrreflexive(a: seq<int>)
    ensures !LexGreater(a, a)
  {
    if |a| > 0 {
      LexIrreflexive(a[1..]);
    }
  }

  lemma {:induction false} LexAsymmetric(a: seq<int>, b: seq<int>)
    requires |a| == |b|
    ensures LexGreater(a, b) ==> !LexGreater(b, a)
  {
    if |a| > 0 {
      LexAsymmetric(a[1..], b[1..]);
    }
  }

  lemma {:induction false} LexTransitive(a: seq<int>, b: seq<int>, c: seq<int>)
    requires |a| == |b| == |c|
    requires LexGreater(a, b) && LexGreater(b, c)
    ensures LexGreater(a, c)
  {
    if a[0] == b[0] == c[0] {
      LexTransitive(a[1..], b[1..], c[1..]);
    }
  }

  lemma {:induction false} LexTotal(a: seq<int>, b: seq<int>)
    requires |a| == |b|
    ensures a == b || LexGreater(a, b) || LexGreater(b, a)
  {
    if |a| > 0 && a[0] == b[0] {
      LexTotal(a[1..], b[1..]);
      if a[1..] == b[1..] {
        assert a == [a[0]] + a[1..] && b == [b[0]] + b[1..];
      }
    }
  }

  /** The `when` chain of `isNewerVersion` over the two triples. */
  function NewerThan(remote: Version, local: Version): bool {
    if remote.major > local.major then true
    else if remote.major < local.major then false
    else if remote.minor > local.minor then true
    else if remote.minor < local.minor then false
    else if remote.patch > local.patch then true
    else false
  }

  /** The `when` chain is the strict lexicographic order on (major, minor, patch). */
  lemma NewerThanIsLex(remote: Version, local: Version)
    ensures NewerThan(remote, local) <==> LexGreater(remote.Components(), local.Components())
  {
    var r, l := remote.Components(), local.Components();
    assert r[1..] == [remote.minor, remote.patch] && l[1..] == [local.minor, local.patch];
    assert r[1..][1..] == [remote.patch] && l[1..][1..] == [local.patch];
    assert !LexGreater(r[1..][1..][1..], l[1..][1..][1..]);
    assert LexGreater(r[1..][1..], l[1..][1..]) <==> remote.patch > local.patch;
    assert LexGreater(r[1..], l[1..])
      <==> remote.minor > local.minor || (remote.minor == local.minor && remote.patch > local.patch);
  }

  /**
   * `isNewerVersion`. A tag starting with "test-" names a test build: it is
   * newer iff the rest parses as an Int above the current version code. Any
   * other tag is newer iff its version comes strictly after the current one
   * in lexicographic order of (major, minor, patch). `isPrerelease` plays no
   * part. Every parse falls back to a value, so the comparison never fails.
   */
  function IsNewerVersion(tagName: string, isPrerelease: bool, current: CurrentVersion): (newer: bool)
    ensures !StartsWith(tagName, TEST_PREFIX) ==>
      (newer <==> LexGreater(TagVersion(tagName).Components(), CurrentVersionOf(current.versionName).Components()))
  {
    if StartsWith(tagName, TEST_PREFIX) then
      match ParseInt(RemovePrefix(tagName, TEST_PREFIX))
      case None => false
      case Some(buildNum) => buildNum > current.versionCode
    else
      var remote := TagVersion(tagName);
      var local := CurrentVersionOf(current.versionName);
      NewerThanIsLex(remote, local);
      NewerThan(remote, local)
  }

  /** Whether a release is a prerelease does not affect whether it is newer. */
  lemma PrereleaseFlagIgnored(tagName: string, current: CurrentVersion)
    ensures IsNewerVersion(tagName, true, current) == IsNewerVersion(tagName, false, current)
  {
  }

  /** A test build numbered `n` is newer exactly when `n` is above the current version code. */
  lemma TestTagNewer(n: int, isPrerelease: bool, current: CurrentVersion)
    requires INT_MIN <= n <= INT_MAX
    ensures IsNewerVersion(TEST_PREFIX + ShowInt(n), isPrerelease, current) <==> n > current.versionCode
  {
    var tag := TEST_PREFIX + ShowInt(n);
    assert tag[..|TEST_PREFIX|] == TEST_PREFIX;
    assert RemovePrefix(tag, TEST_PREFIX) == ShowInt(n);
    ParseShow(n, INT_MIN, INT_MAX);
  }

  /**
   * A test build whose remainder is not an `Int` (empty, a lone sign, a
   * stray character, or out of the 32-bit range) is never newer.
   */
  lemma TestTagUnparsed(rest: string, isPrerelease: bool, current: CurrentVersion)
    requires ParseInt(rest).None?
    ensures !IsNewerVersion(TEST_PREFIX + rest, isPrerelease, current)
  {
    var tag := TEST_PREFIX + rest;
    assert tag[..|TEST_PREFIX|] == TEST_PREFIX;
    assert RemovePrefix(tag, TEST_PREFIX) == rest;
  }

  /** A test build with a stray non-digit in its number is never newer. */
  lemma TestTagNonNumeric(rest: string, k: nat, isPrerelease: bool, current: CurrentVersion)
    requires k < |rest| && !IsDigit(rest[k])
    requires k > 0 || (rest[0] != '-' && rest[0] != '+')
    ensures !IsNewerVersion(TEST_PREFIX + rest, isPrerelease, current)
  {
    ParseRejects(rest, INT_MIN, INT_MAX, k);
    TestTagUnparsed(rest, isPrerelease, current);
  }

  /**
   * A test build numbered beyond the 32-bit range is never newer, however
   * large it is compared with the current version code.
   */
  lemma TestTagOutOfRange(n: int, isPrerelease: bool, current: CurrentVersion)
    requires n < INT_MIN || INT_MAX < n
    ensures !IsNewerVersion(TEST_PREFIX + ShowInt(n), isPrerelease, current)
  {
    ParseShowOutOfRange(n, INT_MIN, INT_MAX);
    TestTagUnparsed(ShowInt(n), isPrerelease, current);
  }

  /** A release tag naming the same version as the running build is not newer. */
  lemma SameVersionNotNewer(tagName: string, isPrerelease: bool, current: CurrentVersion)
    requires !StartsWith(tagName, TEST_PREFIX)
    requires TagVersion(tagName) == CurrentVersionOf(current.versionName)
    ensures !IsNewerVersion(tagName, isPrerelease, current)
  {
    LexIrreflexive(TagVersion(tagName).Components());
  }

  /** Versions are totally ordered: of two different versions exactly one comes after the other. */
  lemma VersionOrder(a: Version, b: Version)
    ensures a == b <==> !LexGreater(a.Components(), b.Components()) && !LexGreater(b.Components(), a.Components())
    ensures !(LexGreater(a.Components(), b.Components()) && LexGreater(b.Components(), a.Components()))
  {
    var x, y := a.Components(), b.Components();
    LexIrreflexive(x);
    LexTotal(x, y);
    LexAsymmetric(x, y);
    if x == y {
      assert a.major == x[0] == y[0] == b.major;
      assert a.minor == x[1] == y[1] == b.minor;
      assert a.patch == x[2] == y[2] == b.patch;
    }
  }

  /** One leading 'v' on a release tag makes no difference. */
  lemma LeadingVIgnored(tagName: string, isPrerelease: bool, current: CurrentVersion)
    requires !StartsWith(tagName, "v") && !StartsWith(tagName, TEST_PREFIX)
    ensures IsNewerVersion("v" + tagName, isPrerelease, current) == IsNewerVersion(tagName, isPrerelease, current)
  {
    var tag := "v" + tagName;
    assert tag[..1] == "v";
    assert RemovePrefix(tag, "v") == tagName;
    assert !StartsWith(tag, TEST_PREFIX) by {
      assert tag[0] == 'v';
    }
  }

  /**
   * The running build's name is not stripped of a leading 'v': its first
   * component then does not parse and counts as 0.
   */
  lemma CurrentNameKeepsV(versionName: string)
    requires |versionName| > 0 && versionName[0] == 'v'
    ensures CurrentVersionOf(versionName).major == 0
  {
    var first := Split(versionName, '.')[0];
    assert |first| > 0 && first[0] == 'v' by {
      match SplitAtFirst(versionName, '.')
      case None =>
      case Some((front, back)) =>
        assert versionName == front + ['.'] + back;
        assert versionName[0] == front[0];
    }
    ParseRejects(first, INT_MIN, INT_MAX, 0);
  }

  /** Components after the third are ignored. */
  lemma ExtraComponentsIgnored(parts: seq<string>, extra: seq<string>)
    requires |parts| >= 3
    ensures VersionOf(parts + extra) == VersionOf(parts)
  {
    assert (parts + extra)[0] == parts[0] && (parts + extra)[1] == parts[1] && (parts + extra)[2] == parts[2];
  }

  /** A missing component counts as 0, as does one that is not an Int. */
  lemma MissingComponentIsZero(parts: seq<string>, i: nat)
    requires i >= |parts| || ParseInt(parts[i]).None?
    ensures Component(parts, i) == 0
  {
  }

  /** Decimal text parses back as an Int. */
  lemma ParseIntShow(n: nat)
    requires n <= INT_MAX
    ensures ParseInt(ShowNat(n)) == Some(n)
  {
    ParseShow(n, INT_MIN, INT_MAX);
  }

  /** Decimal text holds no '.'. */
  lemma NoDot(n: nat)
    ensures '.' !in ShowNat(n)
  {
    var s := ShowNat(n);
    assert forall k :: 0 <= k < |s| ==> IsDigit(s[k]) && s[k] != '.';
  }

  /** Three dot-free parts joined with '.' split back into those parts. */
  lemma SplitThree(x: string, y: string, z: string)
    requires '.' !in x && '.' !in y && '.' !in z
    ensures Split(x + "." + y + "." + z, '.') == [x, y, z]
  {
    var yz := y + "." + z;
    assert x + "." + y + "." + z == x + "." + yz;
    SplitCons(y, '.', z);
    assert Split(z, '.') == [z];
    assert Split(yz, '.') == [y, z];
    SplitCons(x, '.', yz);
  }

  /** The version of `a.b.c` written in decimal is `(a, b, c)`. */
  lemma VersionText(a: nat, b: nat, c: nat)
    requires a <= INT_MAX && b <= INT_MAX && c <= INT_MAX
    ensures CurrentVersionOf(ShowNat(a) + "." + ShowNat(b) + "." + ShowNat(c)) == Version(a, b, c)
  {
    NoDot(a);
    NoDot(b);
    NoDot(c);
    SplitThree(ShowNat(a), ShowNat(b), ShowNat(c));
    ParseIntShow(a);
    ParseIntShow(b);
    ParseIntShow(c);
  }

  lemma Text199()
    ensures "1.9.9" == ShowNat(1) + "." + ShowNat(9) + "." + ShowNat(9)
  {
  }

  lemma Text200()
    ensures "2.0.0" == ShowNat(2) + "." + ShowNat(0) + "." + ShowNat(0)
  {
  }

  lemma Text150()
    ensures "1.5.0" == ShowNat(1) + "." + ShowNat(5) + "." + ShowNat(0)
  {
  }

  lemma Text149()
    ensures "1.4.9" == ShowNat(1) + "." + ShowNat(4) + "." + ShowNat(9)
  {
  }

  /** A tag without a leading 'v' or "test-" names the version its text names. */
  lemma PlainTag(tagName: string)
    requires |tagName| > 0 && '0' <= tagName[0] <= '9'
    ensures !StartsWith(tagName, TEST_PREFIX) && !StartsWith(tagName, "v")
    ensures TagVersion(tagName) == CurrentVersionOf(tagName)
  {
  }

  lemma StripV200()
    ensures !StartsWith("v2.0.0", TEST_PREFIX)
    ensures TagVersion("v2.0.0") == CurrentVersionOf("2.0.0")
  {
    assert "v2.0.0"[0] != TEST_PREFIX[0];
    assert RemovePrefix("v2.0.0", "v") == "2.0.0";
  }

  lemma TagV200()
    ensures !StartsWith("v2.0.0", TEST_PREFIX)
    ensures TagVersion("v2.0.0") == Version(2, 0, 0)
  {
    StripV200();
    Text200();
    VersionText(2, 0, 0);
  }

  /** `2.0.0` (tagged `v2.0.0`) is newer than `1.9.9`. */
  lemma NewerExample(code: int, p: bool)
    ensures IsNewerVersion("v2.0.0", p, CurrentVersion(code, "1.9.9"))
  {
    Text199();
    VersionText(1, 9, 9);
    TagV200();
    NewerThanIsLex(Version(2, 0, 0), Version(1, 9, 9));
  }

  /** `1.5.0` is not newer than `1.5.0`, nor is `1.4.9`. */
  lemma NotNewerExamples(code: int, p: bool)
    ensures !IsNewerVersion("1.5.0", p, CurrentVersion(code, "1.5.0"))
    ensures !IsNewerVersion("1.4.9", p, CurrentVersion(code, "1.5.0"))
  {
    Text150();
    Text149();
    VersionText(1, 5, 0);
    VersionText(1, 4, 9);
    PlainTag("1.5.0");
    PlainTag("1.4.9");
    NewerThanIsLex(Version(1, 5, 0), Version(1, 5, 0));
    NewerThanIsLex(Version(1, 4, 9), Version(1, 5, 0));
  }

  lemma TextTest150()
    ensures "test-150" == TEST_PREFIX + ShowInt(150)
  {
  }

  lemma TextTest50()
    ensures "test-50" == TEST_PREFIX + ShowInt(50)
  {
  }

  lemma TextTest3000000000()
    ensures "test-3000000000" == TEST_PREFIX + ShowInt(3000000000)
  {
    ShowNatZeros(30000);
    assert ShowNat(30000) == "30000";
    assert "test-3000000000" == TEST_PREFIX + "30000" + "00000";
  }

  /** Multiplying a positive number by 100000 appends five zeros to its text. */
  lemma ShowNatZeros(n: nat)
    requires n >= 1
    ensures ShowNat(100000 * n) == ShowNat(n) + "00000"
  {
    ShowNatDigit(n, 0);
    ShowNatHundred(10 * n);
    ShowNatHundred(1000 * n);
    var s := ShowNat(n);
    assert s + "0" + "00" + "00" == s + "00000";
  }

  lemma ShowNatHundred(n: nat)
    requires n >= 1
    ensures ShowNat(100 * n) == ShowNat(n) + "00"
  {
    ShowNatDigit(n, 0);
    ShowNatDigit(10 * n, 0);
    var s := ShowNat(n);
    assert s + "0" + "0" == s + "00";
  }

  /** `test-150` is newer than build 100; `test-50` is not. */
  lemma TestBuildExamples(p: bool)
    ensures IsNewerVersion("test-150", p, CurrentVersion(100, "1.0"))
    ensures !IsNewerVersion("test-50", p, CurrentVersion(100, "1.0"))
  {
    TextTest150();
    TextTest50();
    TestTagNewer(150, p, CurrentVersion(100, "1.0"));
    TestTagNewer(50, p, CurrentVersion(100, "1.0"));
  }

  /** `test-`, `test--` and `test-3000000000` are not newer than build 100. */
  lemma UnparsedTestExamples(p: bool)
    ensures !IsNewerVersion("test-", p, CurrentVersion(100, "1.0"))
    ensures !IsNewerVersion("test--", p, CurrentVersion(100, "1.0"))
    ensures !IsNewerVersion("test-3000000000", p, CurrentVersion(100, "1.0"))
  {
    assert "test-" == TEST_PREFIX + "";
    TestTagUnparsed("", p, CurrentVersion(100, "1.0"));
    assert "test--" == TEST_PREFIX + "-";
    TestTagUnparsed("-", p, CurrentVersion(100, "1.0"));
    TextTest3000000000();
    TestTagOutOfRange(3000000000, p, CurrentVersion(100, "1.0"));
  }

  // ---------------------------------------------------------------------
  // Assets
  // ---------------------------------------------------------------------

  predicate IsApk(asset: Asset) {
    EndsWith(asset.name, APK_SUFFIX)
  }

  /** The download URL of the first asset whose name ends with ".apk". */
  function FirstApk(assets: seq<Asset>): Option<string> {
    if |assets| == 0 then None
    else if IsApk(assets[0]) then Some(assets[0].downloadUrl)
    else FirstApk(assets[1..])
  }

  /** The download URL of a release: its first ".apk" asset, if it has an asset list. */
  function ApkUrl(assets: Option<seq<Asset>>): Option<string> {
    match assets
    case None => None
    case Some(list) => FirstApk(list)
  }

  lemma {:induction false} FirstApkNone(assets: seq<Asset>)
    ensures FirstApk(assets).None? <==> forall i :: 0 <= i < |assets| ==> !IsApk(assets[i])
  {
    if |assets| > 0 {
      FirstApkNone(assets[1..]);
      if !IsApk(assets[0]) {
        assert forall i :: 1 <= i < |assets| ==> assets[i] == assets[1..][i - 1];
      }
    }
  }

  lemma {:induction false} FirstApkAt(assets: seq<Asset>, i: nat)
    requires i < |assets| && IsApk(assets[i])
    requires forall j :: 0 <= j < i ==> !IsApk(assets[j])
    ensures FirstApk(assets) == Some(assets[i].downloadUrl)
  {
    if i > 0 {
      assert assets[1..][i - 1] == assets[i];
      FirstApkAt(assets[1..], i - 1);
    }
  }

  /** "notes.txt" is passed over and "app-release.apk" picked. */
  lemma AssetExample(u1: string, u2: string)
    ensures FirstApk([Asset("notes.txt", u1), Asset("app-release.apk", u2)]) == Some(u2)
  {
    var assets := [Asset("notes.txt", u1), Asset("app-release.apk", u2)];
    assert !IsApk(assets[0]) by {
      assert "notes.txt"[5..] == ".txt";
    }
    assert IsApk(assets[1]) by {
      assert "app-release.apk"[11..] == ".apk";
    }
    FirstApkAt(assets, 1);
  }

  // ---------------------------------------------------------------------
  // Selection
  // ---------------------------------------------------------------------

  /** The report for a record: a missing name is the tag, a missing body empty. */
  function ToInfo(release: ReleaseRecord): ReleaseInfo {
    ReleaseInfo(release.tagName, release.name.GetOr(release.tagName), release.body.GetOr(""),
                release.htmlUrl, ApkUrl(release.assets), release.isPrerelease, release.publishedAt)
  }

  /** A record `UpdateChecker` may report: allowed by the prerelease filter, and newer. */
  predicate Qualifies(release: ReleaseRecord, includePrerelease: bool, current: CurrentVersion) {
    !(release.isPrerelease && !includePrerelease)
    && IsNewerVersion(release.tagName, release.isPrerelease, current)
  }

  /** Record `i` qualifies and no record before it does. */
  predicate FirstQualifying(releases: seq<ReleaseRecord>, includePrerelease: bool, current: CurrentVersion, i: nat) {
    i < |releases| && Qualifies(releases[i], includePrerelease, current)
    && forall j :: 0 <= j < i ==> !Qualifies(releases[j], includePrerelease, current)
  }

  /** The first qualifying record in list order, reported. */
  function SelectRelease(releases: seq<ReleaseRecord>, includePrerelease: bool, current: CurrentVersion)
    : Option<ReleaseInfo>
  {
    if |releases| == 0 then None
    else if Qualifies(releases[0], includePrerelease, current) then Some(ToInfo(releases[0]))
    else SelectRelease(releases[1..], includePrerelease, current)
  }

  /**
   * The selection in `checkForUpdates`: an empty list gives nothing;
   * otherwise records are scanned in order, prereleases skipped unless
   * wanted, each record's download URL taken from its first ".apk" asset,
   * and the first newer record is returned.
   */
  method CheckForUpdates(releases: seq<ReleaseRecord>, includePrerelease: bool, current: CurrentVersion)
    returns (r: Option<ReleaseInfo>)
    ensures r == SelectRelease(releases, includePrerelease, current)
  {
    if |releases| == 0 {
      return None;
    }
    for i := 0 to |releases|
      invariant SelectRelease(releases, includePrerelease, current)
        == SelectRelease(releases[i..], includePrerelease, current)
    {
      assert releases[i..][1..] == releases[i + 1..];
      var release := releases[i];
      var isPrerelease := release.isPrerelease;
      if isPrerelease && !includePrerelease {
        continue;
      }
      var tagName := release.tagName;
      var name := if release.name.Some? then release.name.value else tagName;
      var body := if release.body.Some? then release.body.value else "";
      var downloadUrl: Option<string> := None;
      if release.assets.Some? {
        var assets := release.assets.value;
        for j := 0 to |assets|
          invariant downloadUrl.None? && FirstApk(assets) == FirstApk(assets[j..])
        {
          assert assets[j..][1..] == assets[j + 1..];
          if EndsWith(assets[j].name, APK_SUFFIX) {
            downloadUrl := Some(assets[j].downloadUrl);
            break;
          }
        }
      }
      assert downloadUrl == ApkUrl(release.assets);
      var releaseInfo := ReleaseInfo(tagName, name, body, release.htmlUrl, downloadUrl,
                                     isPrerelease, release.publishedAt);
      if IsNewerVersion(tagName, isPrerelease, current) {
        return Some(releaseInfo);
      }
    }
    return None;
  }

  /** Nothing is selected exactly when no record qualifies (in particular, for an empty list). */
  lemma {:induction false} SelectNone(releases: seq<ReleaseRecord>, includePrerelease: bool, current: CurrentVersion)
    ensures SelectRelease(releases, includePrerelease, current).None?
      <==> forall i :: 0 <= i < |releases| ==> !Qualifies(releases[i], includePrerelease, current)
  {
    if |releases| > 0 {
      SelectNone(releases[1..], includePrerelease, current);
      if !Qualifies(releases[0], includePrerelease, current) {
        assert forall i :: 1 <= i < |releases| ==> releases[i] == releases[1..][i - 1];
      }
    }
  }

  /** The selected record is the first qualifying one, not the newest one. */
  lemma {:induction false} SelectAt(releases: seq<ReleaseRecord>, includePrerelease: bool, current: CurrentVersion, i: nat)
    requires FirstQualifying(releases, includePrerelease, current, i)
    ensures SelectRelease(releases, includePrerelease, current) == Some(ToInfo(releases[i]))
  {
    if i > 0 {
      assert releases[1..][i - 1] == releases[i];
      SelectAt(releases[1..], includePrerelease, current, i - 1);
    }
  }

  /** What is selected is the report of some qualifying record, with no qualifying record before it. */
  lemma {:induction false} SelectedQualifies(releases: seq<ReleaseRecord>, includePrerelease: bool, current: CurrentVersion)
    requires SelectRelease(releases, includePrerelease, current).Some?
    ensures exists i: nat :: FirstQualifying(releases, includePrerelease, current, i)
                     && SelectRelease(releases, includePrerelease, current) == Some(ToInfo(releases[i]))
  {
    if !Qualifies(releases[0], includePrerelease, current) {
      SelectedQualifies(releases[1..], includePrerelease, current);
      var k: nat :| FirstQualifying(releases[1..], includePrerelease, current, k)
               && SelectRelease(releases[1..], includePrerelease, current) == Some(ToInfo(releases[1..][k]));
      assert releases[k + 1] == releases[1..][k];
      assert forall j :: 1 <= j < k + 1 ==> releases[j] == releases[1..][j - 1];
      assert FirstQualifying(releases, includePrerelease, current, k + 1);
    } else {
      assert FirstQualifying(releases, includePrerelease, current, 0);
    }
  }

  /** With prereleases excluded, the selected release is never a prerelease. */
  lemma NoPrereleaseWhenExcluded(releases: seq<ReleaseRecord>, current: CurrentVersion)
    ensures SelectRelease(releases, false, current).Some? ==> !SelectRelease(releases, false, current).value.isPrerelease
  {
    if SelectRelease(releases, false, current).Some? {
      SelectedQualifies(releases, false, current);
    }
  }

  // ---------------------------------------------------------------------
  // downloadApk
  // ---------------------------------------------------------------------

  /** `downloadApk`: the URL opened is the release's download URL, else its page. */
  function DownloadUrl(info: ReleaseInfo): string {
    info.downloadUrl.GetOr(info.htmlUrl)
  }

  /**
   * For a reported record, the URL opened for download is that of its first
   * ".apk" asset when it has one, and its release page otherwise.
   */
  lemma DownloadTarget(release: ReleaseRecord, i: nat)
    ensures release.assets.Some? && i < |release.assets.value| && IsApk(release.assets.value[i])
      && (forall j :: 0 <= j < i ==> !IsApk(release.assets.value[j]))
      ==> DownloadUrl(ToInfo(release)) == release.assets.value[i].downloadUrl
    ensures (release.assets.None? || forall j :: 0 <= j < |release.assets.value| ==> !IsApk(release.assets.value[j]))
      ==> DownloadUrl(ToInfo(release)) == release.htmlUrl
  {
    if release.assets.Some? {
      FirstApkNone(release.assets.value);
      if i < |release.assets.value| && IsApk(release.assets.value[i])
        && (forall j :: 0 <= j < i ==> !IsApk(release.assets.value[j])) {
        FirstApkAt(release.assets.value, i);
      }
    }
  }
}
