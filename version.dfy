/**
 * The front end's version service: on each navigation it compares the
 * version and build time kept in localStorage with the running build's,
 * clears the browser caches when they differ and records the running
 * build. The running version and build time are parameters; clearing the
 * caches is counted as an event.
 */
module Version {
  import opened Common

  const VersionKey: string := "app_version"
  const BuildTimeKey: string := "build_time"

  /** localStorage as raw text per key. */
  type RawStorage = map<string, string>

  /** The new storage and whether the caches were cleared. */
  datatype Outcome = Outcome(storage: RawStorage, cleared: bool)

  /** The storage with the running version and build time recorded. */
  function Record(s: RawStorage, currentVersion: string, currentBuildTime: string): RawStorage {
    s[VersionKey := currentVersion][BuildTimeKey := currentBuildTime]
  }

  /** The stored version is truthy: present and not empty. */
  predicate HasStoredVersion(s: RawStorage) {
    VersionKey in s && s[VersionKey] != ""
  }

  /** `localStorage.getItem(BUILD_TIME_KEY) || ''` */
  function StoredBuildTime(s: RawStorage): string {
    if BuildTimeKey in s then s[BuildTimeKey] else ""
  }

  /** The stored build is outdated: another version, or a snapshot of the same version built at another time. */
  predicate Outdated(s: RawStorage, currentVersion: string, currentBuildTime: string)
    requires HasStoredVersion(s)
  {
    s[VersionKey] != currentVersion
    || (EndsWith(currentVersion, "-SNAPSHOT") && StoredBuildTime(s) != currentBuildTime)
  }

  /** checkAndHandleVersionChange, as a function of the storage before it. */
  function VersionCheck(s: RawStorage, currentVersion: string, currentBuildTime: string): Outcome {
    if HasStoredVersion(s) && Outdated(s, currentVersion, currentBuildTime) then
      Outcome(Record(s, currentVersion, currentBuildTime), true)
    else if !HasStoredVersion(s) then
      Outcome(Record(s, currentVersion, currentBuildTime), false)
    else
      Outcome(s, false)
  }

  /** A first visit records the running build and clears nothing. */
  lemma FirstVisit(s: RawStorage, currentVersion: string, currentBuildTime: string)
    requires VersionKey !in s || s[VersionKey] == ""
    ensures VersionCheck(s, currentVersion, currentBuildTime) == Outcome(Record(s, currentVersion, currentBuildTime), false)
  {
  }

  /** A different stored version clears the caches and records the running build. */
  lemma VersionChanged(s: RawStorage, currentVersion: string, currentBuildTime: string)
    requires HasStoredVersion(s) && s[VersionKey] != currentVersion
    ensures VersionCheck(s, currentVersion, currentBuildTime) == Outcome(Record(s, currentVersion, currentBuildTime), true)
  {
  }

  /** A snapshot rebuilt at another time clears and records even though the versions are equal. */
  lemma SnapshotRebuilt(s: RawStorage, currentVersion: string, currentBuildTime: string)
    requires HasStoredVersion(s) && s[VersionKey] == currentVersion
    requires EndsWith(currentVersion, "-SNAPSHOT") && StoredBuildTime(s) != currentBuildTime
    ensures VersionCheck(s, currentVersion, currentBuildTime) == Outcome(Record(s, currentVersion, currentBuildTime), true)
  {
  }

  /**
   * The caches are cleared exactly when a non-empty stored version is
   * outdated; the storage is left as it was exactly when it already holds
   * the running version and that version is not outdated, so in particular
   * for a release version stored as it is.
   */
  lemma ClearsExactlyWhenOutdated(s: RawStorage, currentVersion: string, currentBuildTime: string)
    ensures var o := VersionCheck(s, currentVersion, currentBuildTime);
      && (o.cleared <==> HasStoredVersion(s) && Outdated(s, currentVersion, currentBuildTime))
      && (HasStoredVersion(s) && s[VersionKey] == currentVersion && !EndsWith(currentVersion, "-SNAPSHOT") ==> o == Outcome(s, false))
      && (o.storage != s ==> o.storage == Record(s, currentVersion, currentBuildTime))
  {
  }

  /**
   * The check settles at once: run again with the same build it clears
   * nothing and changes nothing.
   */
  lemma {:induction false} VersionCheckSettles(s: RawStorage, currentVersion: string, currentBuildTime: string)
    ensures var s' := VersionCheck(s, currentVersion, currentBuildTime).storage;
      VersionCheck(s', currentVersion, currentBuildTime) == Outcome(s', false)
  {
    var o := VersionCheck(s, currentVersion, currentBuildTime);
    var r := Record(s, currentVersion, currentBuildTime);
    assert r[VersionKey] == currentVersion && StoredBuildTime(r) == currentBuildTime;
    if o.storage == r {
      assert Record(r, currentVersion, currentBuildTime) == r;
    }
  }

  /** `addVersionParam`: the version appended as a query parameter. */
  function AddVersionParam(url: string, version: string): string {
    url + (if '?' in url then "&" else "?") + "v=" + version
  }

  /**
   * The url is kept as a prefix, followed by '&' when it already has a
   * query and '?' otherwise, then `v=` and the version.
   */
  lemma AddVersionParamShape(url: string, version: string)
    ensures var r := AddVersionParam(url, version);
      && |r| == |url| + 3 + |version|
      && r[..|url|] == url
      && r[|url|] == (if '?' in url then '&' else '?')
      && r[|url| + 1..] == "v=" + version
      && '?' in r
  {
    var r := AddVersionParam(url, version);
    assert r[|url|] in r;
  }

  /** The service over the page's localStorage, counting cache clears. */
  class VersionService {
    var storage: RawStorage
    var cacheClears: nat

    constructor (storage: RawStorage)
      ensures this.storage == storage && cacheClears == 0
    {
      this.storage := storage;
      cacheClears := 0;
    }

    /** checkAndHandleVersionChange */
    method CheckAndHandleVersionChange(currentVersion: string, currentBuildTime: string)
      modifies this
      ensures var o := VersionCheck(old(storage), currentVersion, currentBuildTime);
        storage == o.storage && cacheClears == old(cacheClears) + (if o.cleared then 1 else 0)
    {
      var storedVersion := if VersionKey in storage then storage[VersionKey] else "";
      var buildTime := if BuildTimeKey in storage && storage[BuildTimeKey] != "" then storage[BuildTimeKey] else "";
      if storedVersion != ""
         && (storedVersion != currentVersion || (EndsWith(currentVersion, "-SNAPSHOT") && buildTime != currentBuildTime))
      {
        cacheClears := cacheClears + 1;
        storage := storage[VersionKey := currentVersion];
        storage := storage[BuildTimeKey := currentBuildTime];
      } else if storedVersion == "" {
        storage := storage[VersionKey := currentVersion];
        storage := storage[BuildTimeKey := currentBuildTime];
      }
    }
  }
}
