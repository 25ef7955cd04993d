/**
 * de.cketti.changelog.ChangeLog: the newer front end. The releases come from
 * a ChangeLogProvider; the class itself only keeps the last version code
 * (read from, and written back to, one SharedPreferences instance) and the
 * app's current version, and asks the provider for the full log or for the
 * releases newer than the last version code ("What's New").
 */
module ChangeLogs {
  import opened Wrappers
  import opened JavaLang
  import opened Android
  import opened ReleaseItems
  import opened ReleaseTags
  import opened VersionOrder
  import opened ChangeLogProviders
  import LibraryChangeLogs

  const VERSION_KEY: string := "ckChangeLog_last_version_code"

  class ChangeLog {
    const context: Context
    const preferences: SharedPreferences
    const changeLogProvider: Provider
    var lastVersionCode: Int32
    var currentVersionCode: Int32
    var currentVersionName: Option<string>

    /**
     * newInstance(context, preferences, changeLogProvider) followed by init:
     * the last version code is read from `preferences` (-1 when absent), the
     * current one from the package manager (-1 and no name when it does not
     * know the app).
     */
    constructor NewInstance(context: Context, preferences: SharedPreferences, changeLogProvider: Provider)
      ensures this.context == context && this.preferences == preferences && this.changeLogProvider == changeLogProvider
      ensures lastVersionCode == preferences.GetInt(VERSION_KEY, NO_VERSION)
      ensures currentVersionCode == LibraryChangeLogs.CurrentCode(context)
      ensures currentVersionName == LibraryChangeLogs.CurrentName(context)
    {
      this.context := context;
      this.preferences := preferences;
      this.changeLogProvider := changeLogProvider;
      lastVersionCode := preferences.GetInt(VERSION_KEY, NO_VERSION);
      match context.packageInfo
      case Some(packageInfo) =>
        currentVersionCode := packageInfo.versionCode;
        currentVersionName := packageInfo.versionName;
      case None =>
        currentVersionCode := NO_VERSION;
        currentVersionName := None;
    }

    /** isFirstRun: this version of the app has not been recorded yet. */
    predicate IsFirstRun()
      reads this
    {
      lastVersionCode < currentVersionCode
    }

    /** isFirstRunEver: no version has ever been recorded. */
    predicate IsFirstRunEver()
      reads this
    {
      lastVersionCode == NO_VERSION
    }

    /** writeCurrentVersion: the current code goes to the preferences this instance read from. */
    method WriteCurrentVersion()
      modifies preferences
      ensures preferences.ints == old(preferences.ints)[VERSION_KEY := currentVersionCode]
    {
      preferences.PutInt(VERSION_KEY, currentVersionCode);
    }

    /** getChangeLog: the provider's full log. */
    method GetChangeLog() returns (r: seq<Release>)
      ensures r == ChangeLogOf(changeLogProvider)
    {
      r := ChangeLogProviders.GetChangeLog(changeLogProvider);
    }

    /**
     * getRecentChanges: the provider's releases newer than the last version
     * code; no release at or below that code is ever among them.
     */
    method GetRecentChanges() returns (r: seq<Release>)
      ensures r == SinceOf(changeLogProvider, lastVersionCode)
      ensures forall i :: 0 <= i < |r| ==> r[i].versionCode > lastVersionCode
    {
      r := GetChangeLogSince(changeLogProvider, lastVersionCode);
      AllHonourSince(changeLogProvider, lastVersionCode);
    }
  }

  /**
   * While no builder behind the provider has grown since `build`, the
   * recent changes are exactly the releases of the full log newer than the
   * last version code, in the full log's order.
   */
  method RecentChangesFilterFullLog(changeLog: ChangeLog) returns (full: seq<Release>, recent: seq<Release>)
    requires Untouched(changeLog.changeLogProvider)
    ensures recent == NewerThan(full, Code, changeLog.lastVersionCode)
    ensures forall x :: x in recent ==> x in full && x.versionCode > changeLog.lastVersionCode
    ensures forall x :: x in full && x.versionCode > changeLog.lastVersionCode ==> x in recent
  {
    UntouchedSinceFromLog(changeLog.changeLogProvider, changeLog.lastVersionCode);
    FootprintAllocated(changeLog.changeLogProvider);
    full := changeLog.GetChangeLog();
    recent := changeLog.GetRecentChanges();
    assert unchanged(Footprint(changeLog.changeLogProvider));
    NewerThanMembers(full, Code, changeLog.lastVersionCode);
  }

  /**
   * After writeCurrentVersion the next instance on the same preferences is not
   * a first run, and is a first run ever only when the app's own code is -1.
   */
  method RelaunchAfterWrite(context: Context, preferences: SharedPreferences, changeLogProvider: Provider)
    returns (firstRun: bool, firstRunEver: bool)
    modifies preferences
    ensures !firstRun
    ensures firstRunEver <==> LibraryChangeLogs.CurrentCode(context) == NO_VERSION
  {
    var first := new ChangeLog.NewInstance(context, preferences, changeLogProvider);
    first.WriteCurrentVersion();
    var next := new ChangeLog.NewInstance(context, preferences, changeLogProvider);
    firstRun := next.IsFirstRun();
    firstRunEver := next.IsFirstRunEver();
  }

  /** On a first launch ever (nothing stored) of a known app with a non-negative code, both checks report true. */
  method FirstLaunch(versionCode: Int32, versionName: Option<string>, changeLogProvider: Provider)
    returns (firstRun: bool, firstRunEver: bool)
    requires versionCode >= 0
    ensures firstRun && firstRunEver
  {
    var preferences := new SharedPreferences(map[]);
    var defaults := new SharedPreferences(map[]);
    var changeLog := new ChangeLog.NewInstance(Context(defaults, Some(PackageInfo(versionCode, versionName))),
                                               preferences, changeLogProvider);
    firstRun := changeLog.IsFirstRun();
    firstRunEver := changeLog.IsFirstRunEver();
  }
}
