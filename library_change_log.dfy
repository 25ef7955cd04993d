/**
 * de.cketti.library.changelog.ChangeLog: the older, self-contained change-log
 * engine. It reads two XML resources (the master log and the localized log)
 * into SparseArrays keyed by version code, merges them with the localized
 * entry winning, and sorts the result newest first. The last version code
 * seen is kept in SharedPreferences.
 *
 * Unlike XmlParser, its early stop applies to any bound, -1 included, and
 * only to the "What's New" log (`full == false`); a stream error ends
 * reading quietly and keeps the releases read so far.
 */
module LibraryChangeLogs {
  import opened Wrappers
  import opened JavaLang
  import opened Android
  import opened PullParsers
  import opened LibraryReleaseItems
  import opened ReleaseTags
  import opened VersionOrder
  import opened ChangeLogDocuments
  import XmlParsers

  const VERSION_KEY: string := "ckChangeLog_last_version_code"

  /** The early-stop rule of parseReleaseTag: the partial log stops at the first release not newer than `lastVersionCode`. */
  function RuleOf(full: bool, lastVersionCode: Int32): StopRule {
    if !full then StopAtOrBelow(lastVersionCode) else NoStop
  }

  /** The catch clauses of readChangeLog: a stream error keeps what was read, any other exception propagates. */
  function Swallow(out: Outcome): Result<seq<LibraryRelease>, Exception> {
    match out.error
    case None => Success(out.releases)
    case Some(e) => if e == XmlPullParserException then Success(out.releases) else Failure(e)
  }

  /** Every entry of the map sits under its own version code, as IndexBy(_, Code) leaves it. */
  predicate ReadsAsIndex(m: map<int, LibraryRelease>) {
    forall k :: k in m ==> m[k].versionCode == k
  }
  /** What readChangeLog leaves in its SparseArray for a whole resource, or the exception it throws. */
  function ReadLog(events: seq<Event>, full: bool, lastVersionCode: Int32): (r: Result<map<int, LibraryRelease>, Exception>)
    requires |events| > 0
    ensures r.Success? ==> ReadsAsIndex(r.value)
  {
    match Swallow(ReadReleases(events, 0, RuleOf(full, lastVersionCode), []))
    case Success(rs) => Success(IndexBy(rs, Code))
    case Failure(e) => Failure(e)
  }

  /** The merge of getChangeLog: every master code, with the localized entry where there is one. */
  function Pick(master: map<int, LibraryRelease>, localized: map<int, LibraryRelease>): map<int, LibraryRelease> {
    map k | k in master :: if k in localized then localized[k] else master[k]
  }

  /** Version codes strictly decrease along the list: newest first, no code twice. */
  predicate StrictlyDescending(s: seq<LibraryRelease>) {
    forall i, j :: 0 <= i < j < |s| ==> s[i].versionCode > s[j].versionCode
  }

  /** `s` lists exactly the entries of `m`, each under its own code. */
  predicate Lists(s: seq<LibraryRelease>, m: map<int, LibraryRelease>) {
    (forall i :: 0 <= i < |s| ==> s[i].versionCode in m && m[s[i].versionCode] == s[i])
    && (forall k :: k in m ==> exists i :: 0 <= i < |s| && s[i].versionCode == k)
  }

  /** The version code the package manager reports, -1 when it does not know the app. */
  function CurrentCode(context: Context): Int32 {
    match context.packageInfo
    case Some(info) => info.versionCode
    case None => NO_VERSION
  }

  /** The version name the package manager reports (null when it does not know the app). */
  function CurrentName(context: Context): Option<string> {
    match context.packageInfo
    case Some(info) => info.versionName
    case None => None
  }

  class LibraryChangeLog {
    const context: Context
    /** The resources R.xml.changelog_master and R.xml.changelog, as parsed by getXml. */
    const masterXml: seq<Event>
    const localizedXml: seq<Event>
    /**
     * The SharedPreferences that init read the last version code from. The
     * Java class does not keep this reference; see WriteCurrentVersionAsWritten.
     */
    const preferences: SharedPreferences
    var lastVersionCode: Int32
    var currentVersionCode: Int32
    var currentVersionName: Option<string>

    /** newInstance(context): reads the default SharedPreferences. */
    constructor NewInstance(context: Context, masterXml: seq<Event>, localizedXml: seq<Event>)
      ensures this.context == context && this.masterXml == masterXml && this.localizedXml == localizedXml
      ensures preferences == context.defaultPreferences
      ensures lastVersionCode == context.defaultPreferences.GetInt(VERSION_KEY, NO_VERSION)
      ensures currentVersionCode == CurrentCode(context) && currentVersionName == CurrentName(context)
    {
      this.context := context;
      this.masterXml := masterXml;
      this.localizedXml := localizedXml;
      preferences := context.defaultPreferences;
      lastVersionCode := context.defaultPreferences.GetInt(VERSION_KEY, NO_VERSION);
      currentVersionCode := CurrentCode(context);
      currentVersionName := CurrentName(context);
    }

    /** newInstance(context, preferences): reads the last version code from `preferences`. */
    constructor NewInstanceWith(context: Context, preferences: SharedPreferences, masterXml: seq<Event>, localizedXml: seq<Event>)
      ensures this.context == context && this.masterXml == masterXml && this.localizedXml == localizedXml
      ensures this.preferences == preferences
      ensures lastVersionCode == preferences.GetInt(VERSION_KEY, NO_VERSION)
      ensures currentVersionCode == CurrentCode(context) && currentVersionName == CurrentName(context)
    {
      this.context := context;
      this.masterXml := masterXml;
      this.localizedXml := localizedXml;
      this.preferences := preferences;
      lastVersionCode := preferences.GetInt(VERSION_KEY, NO_VERSION);
      currentVersionCode := CurrentCode(context);
      currentVersionName := CurrentName(context);
    }

    /** isFirstRun: this version of the app has not been recorded yet. */
    predicate IsFirstRun()
      reads this
    {
      lastVersionCode < currentVersionCode
    }

    /** isFirstRunEver: no version has ever been recorded. */
    predicate IsFirstRunEver()
      reads this
    {
      lastVersionCode == NO_VERSION
    }

    /** writeCurrentVersion as the source has it: the code goes to the default preferences, whichever ones init read. */
    method WriteCurrentVersionAsWritten()
      modifies context.defaultPreferences
      ensures context.defaultPreferences.ints == old(context.defaultPreferences.ints)[VERSION_KEY := currentVersionCode]
    {
      context.defaultPreferences.PutInt(VERSION_KEY, currentVersionCode);
    }

    /** writeCurrentVersion as intended: the code goes to the preferences that init read. */
    method WriteCurrentVersion()
      modifies preferences
      ensures preferences.ints == old(preferences.ints)[VERSION_KEY := currentVersionCode]
    {
      preferences.PutInt(VERSION_KEY, currentVersionCode);
    }

    /**
     * parseReleaseTag, on a release start tag: true when reading must stop,
     * false once the release has been put into `changelog` under its code.
     */
    method ParseReleaseTag(xml: PullParser, full: bool, changelog: SparseArray<LibraryRelease>) returns (r: Result<bool, Exception>)
      requires xml.Valid() && xml.Current().StartTag? && changelog.Valid()
      modifies xml, changelog
      ensures xml.Valid() && changelog.Valid()
      ensures match ReleaseTag(xml.events, old(xml.pos), RuleOf(full, lastVersionCode))
              case Stop => r == Success(true) && changelog.contents == old(changelog.contents) && xml.pos == old(xml.pos)
              case Parsed(item, j) =>
                r == Success(false) && changelog.contents == old(changelog.contents)[item.versionCode := item] && xml.pos == j
              case Error(e) => r == Failure(e) && changelog.contents == old(changelog.contents)
    {
      var tag := xml.Current();
      var version := AttributeValue(tag, ATTRIBUTE_VERSION);
      var versionCode := VersionCodeOf(tag);
      if !full && versionCode <= lastVersionCode {
        return Success(true);
      }
      var changes := CollectChanges(xml);
      if changes.Failure? {
        return Failure(changes.error);
      }
      var list := new StringList.FromSeq(changes.value);
      var release := Create(versionCode, version, Some(list));
      if release.Failure? {
        return Failure(release.error);
      }
      changelog.Put(versionCode, release.value.Value());
      r := Success(false);
    }

    /** readChangeLog: a fresh SparseArray filled from the current event on. */
    method ReadChangeLog(xml: PullParser, full: bool) returns (r: Result<SparseArray<LibraryRelease>, Exception>)
      requires xml.Valid()
      modifies xml
      ensures r.Success? ==> fresh(r.value) && r.value.Valid()
      ensures match Swallow(ReadReleases(xml.events, old(xml.pos), RuleOf(full, lastVersionCode), []))
              case Success(rs) => r.Success? && r.value.contents == IndexBy(rs, Code)
              case Failure(e) => r == Failure(e)
    {
      var result := new SparseArray<LibraryRelease>();
      ghost var rule := RuleOf(full, lastVersionCode);
      ghost var seen: seq<LibraryRelease> := [];
      var e := xml.Current();
      while !e.EndDocument?
        invariant fresh(result) && result.Valid() && result.contents == IndexBy(seen, Code)
        invariant xml.Valid() && e == xml.Current()
        invariant ReadReleases(xml.events, xml.pos, rule, seen) == ReadReleases(xml.events, old(xml.pos), rule, [])
        decreases |xml.events| - xml.pos
      {
        if IsStart(e, TAG_RELEASE) {
          ghost var i := xml.pos;
          var stop := ParseReleaseTag(xml, full, result);
          if stop.Failure? {
            if stop.error == XmlPullParserException {
              return Success(result);
            }
            return Failure(stop.error);
          }
          if stop.value {
            break;
          }
          ghost var item := ReleaseTag(xml.events, i, rule).item;
          assert (seen + [item])[..|seen|] == seen;
          seen := seen + [item];
        } else if xml.pos + 1 < |xml.events| {
          ReadSkip(xml.events, xml.pos, rule, seen);
        }
        var n := xml.Next();
        if n.Failure? {
          return Success(result);
        }
        e := n.value;
      }
      r := Success(result);
    }

    /** readChangeLogFromResource: a parser on the resource, from its first event. */
    method ReadChangeLogFromResource(events: seq<Event>, full: bool) returns (r: Result<SparseArray<LibraryRelease>, Exception>)
      requires |events| > 0
      ensures r.Success? ==> fresh(r.value) && r.value.Valid()
      ensures match ReadLog(events, full, lastVersionCode)
              case Success(m) => r.Success? && r.value.contents == m
              case Failure(e) => r == Failure(e)
    {
      var xml := new PullParser(events);
      r := ReadChangeLog(xml, full);
    }

    /**
     * getChangeLog(full): one release per master version code, the localized
     * one where the localized log has that code, newest first.
     */
    method GetChangeLog(full: bool) returns (r: Result<seq<LibraryRelease>, Exception>)
      requires |masterXml| > 0 && |localizedXml| > 0
      ensures var m := ReadLog(masterXml, full, lastVersionCode);
              var l := ReadLog(localizedXml, full, lastVersionCode);
              if m.Failure? then r == Failure(m.error)
              else if l.Failure? then r == Failure(l.error)
              else r.Success? && StrictlyDescending(r.value) && Lists(r.value, Pick(m.value, l.value))
    {
      var masterChangelog := ReadChangeLogFromResource(masterXml, full);
      if masterChangelog.Failure? {
        return Failure(masterChangelog.error);
      }
      var changelog := ReadChangeLogFromResource(localizedXml, full);
      if changelog.Failure? {
        return Failure(changelog.error);
      }
      var merged := MergeByMasterKeys(masterChangelog.value, changelog.value);
      r := Success(merged);
    }
  }

  /**
   * The loop of getChangeLog: for every master key in ascending order, the
   * localized release under that key, or the master one when there is none;
   * then sorted newest first.
   */
  method MergeByMasterKeys(master: SparseArray<LibraryRelease>, localized: SparseArray<LibraryRelease>)
    returns (r: seq<LibraryRelease>)
    requires master.Valid() && ReadsAsIndex(master.contents) && ReadsAsIndex(localized.contents)
    ensures StrictlyDescending(r) && Lists(r, Pick(master.contents, localized.contents))
  {
    ghost var picked := Pick(master.contents, localized.contents);
    var merged: seq<LibraryRelease> := [];
    for i := 0 to master.Size()
      invariant |merged| == i
      invariant forall k :: 0 <= k < i ==> master.keys[k] in picked && merged[k] == picked[master.keys[k]]
    {
      var key := master.KeyAt(i);
      var release := localized.Get(key, master.contents[key]);
      merged := merged + [release];
    }
    MergedIsDescending(master.keys, master.contents, localized.contents, merged);
    r := SortDesc(merged, Code);
  }

  /** The loop of getChangeLog lists every master key in ascending order; sorting that list reverses it. */
  lemma MergedIsDescending(keys: seq<int>, master: map<int, LibraryRelease>, localized: map<int, LibraryRelease>,
                           merged: seq<LibraryRelease>)
    requires StrictlyAscending(keys) && (forall k :: k in master <==> k in keys)
    requires ReadsAsIndex(master) && ReadsAsIndex(localized)
    requires |merged| == |keys|
    requires forall k :: 0 <= k < |merged| ==> keys[k] in master && merged[k] == Pick(master, localized)[keys[k]]
    ensures StrictlyDescending(SortDesc(merged, Code)) && Lists(SortDesc(merged, Code), Pick(master, localized))
  {
    var picked := Pick(master, localized);
    forall j | 0 <= j < |merged| ensures merged[j].versionCode == keys[j] {
      assert keys[j] in master && merged[j] == picked[keys[j]];
    }
    SortDescOfAscending(merged, Code);
    ReverseLists(Reverse(merged), merged, keys, picked);
  }

  /** `r` is `s` read backwards. */
  predicate Reversed(r: seq<LibraryRelease>, s: seq<LibraryRelease>) {
    |r| == |s| && forall i :: 0 <= i < |r| ==> r[i] == s[|s| - 1 - i]
  }

  /** A list whose codes are the ascending `keys`, each entry the map's, read backwards lists the map newest first. */
  lemma ReverseLists(r: seq<LibraryRelease>, merged: seq<LibraryRelease>, keys: seq<int>, picked: map<int, LibraryRelease>)
    requires Reversed(r, merged) && StrictlyAscending(keys) && |merged| == |keys|
    requires forall k :: k in picked ==> k in keys
    requires forall j :: 0 <= j < |merged| ==> merged[j].versionCode == keys[j] && keys[j] in picked && picked[keys[j]] == merged[j]
    ensures StrictlyDescending(r) && Lists(r, picked)
  {
    var n := |merged| - 1;
    forall i, j | 0 <= i < j < |r| ensures r[i].versionCode > r[j].versionCode {
      assert r[i] == merged[n - i] && r[j] == merged[n - j];
      assert keys[n - j] < keys[n - i];
    }
    forall i | 0 <= i < |r| ensures r[i].versionCode in picked && picked[r[i].versionCode] == r[i] {
      assert r[i] == merged[n - i];
    }
    forall k | k in picked ensures exists i :: 0 <= i < |r| && r[i].versionCode == k {
      var j :| 0 <= j < |keys| && keys[j] == k;
      assert r[n - j] == merged[j];
    }
  }

  /** The "What's New" read keeps only releases newer than the last version code, whatever that code is. */
  lemma RecentLogKeepsOnlyNewer(events: seq<Event>, lastVersionCode: Int32)
    requires |events| > 0
    ensures ReadLog(events, false, lastVersionCode).Success? ==>
              forall k :: k in ReadLog(events, false, lastVersionCode).value ==> k > lastVersionCode
  {
    var rule := RuleOf(false, lastVersionCode);
    var rs := ReadReleases(events, 0, rule, []).releases;
    ReadKeepsOnlyNewer(events, 0, rule, []);
    if ReadLog(events, false, lastVersionCode).Success? {
      forall k | k in IndexBy(rs, Code) ensures k > lastVersionCode {
        IndexByValues(rs, Code, k);
      }
    }
  }

  /** Hence every release of getChangeLog(false) is newer than the last version code. */
  lemma RecentChangesAreNewer(masterXml: seq<Event>, localizedXml: seq<Event>, lastVersionCode: Int32)
    requires |masterXml| > 0 && |localizedXml| > 0
    requires ReadLog(masterXml, false, lastVersionCode).Success? && ReadLog(localizedXml, false, lastVersionCode).Success?
    ensures forall k :: k in Pick(ReadLog(masterXml, false, lastVersionCode).value, ReadLog(localizedXml, false, lastVersionCode).value)
              ==> k > lastVersionCode
  {
    RecentLogKeepsOnlyNewer(masterXml, lastVersionCode);
  }

  /**
   * On a well-formed document whose releases up to the first one the rule
   * stops at have a `version` and no empty change, readChangeLog holds the
   * releases before that one, each code holding the last of them with that
   * code.
   */
  lemma ReadLogOfDocument(root: string, pad: string, rs: seq<ReleaseElement>, full: bool, lastVersionCode: Int32)
    requires root != TAG_RELEASE
    requires Readable(rs[..FirstStop(rs, RuleOf(full, lastVersionCode))])
    ensures ReadLog(Document(root, pad, rs), full, lastVersionCode)
            == Success(IndexBy(Items(rs[..FirstStop(rs, RuleOf(full, lastVersionCode))]), Code))
  {
    var rule := RuleOf(full, lastVersionCode);
    ReadDocument(root, pad, rs, rule);
    ExpectedIsPrefix(rs, rule, []);
    assert [] + Items(rs[..FirstStop(rs, rule)]) == Items(rs[..FirstStop(rs, rule)]);
  }

  /**
   * An empty `<change>` in a release that is read, after releases that all
   * have a `version`, makes readChangeLog throw cleanText(null)'s
   * NullPointerException: only XmlPullParserException is caught.
   */
  lemma ReadLogEmptyChange(root: string, pad: string, rs: seq<ReleaseElement>, full: bool, lastVersionCode: Int32, m: nat)
    requires root != TAG_RELEASE
    requires m < FirstStop(rs, RuleOf(full, lastVersionCode)) && "" in rs[m].changes && AllVersioned(rs[..m])
    ensures ReadLog(Document(root, pad, rs), full, lastVersionCode) == Failure(NullPointerException(None))
  {
    var rule := RuleOf(full, lastVersionCode);
    ReadDocument(root, pad, rs, rule);
    ExpectedEmptyChange(rs, rule, [], m);
  }

  /** The full log of a well-formed document reads every release; a later release replaces an earlier one with its code. */
  lemma FullLogLaterReleaseWins(root: string, pad: string, rs: seq<ReleaseElement>, lastVersionCode: Int32, i: nat)
    requires root != TAG_RELEASE && Readable(rs)
    requires i < |rs| && forall j :: i < j < |rs| ==> Item(rs[j]).versionCode != Item(rs[i]).versionCode
    ensures ReadLog(Document(root, pad, rs), true, lastVersionCode).Success?
    ensures var m := ReadLog(Document(root, pad, rs), true, lastVersionCode).value;
            Item(rs[i]).versionCode in m && m[Item(rs[i]).versionCode] == Item(rs[i])
  {
    assert FirstStop(rs, NoStop) == |rs| by {
      FirstStopNever(rs);
    }
    assert rs[..|rs|] == rs;
    ReadLogOfDocument(root, pad, rs, true, lastVersionCode);
    IndexByKeepsLast(Items(rs), Code, i);
  }

  lemma {:induction false} FirstStopNever(rs: seq<ReleaseElement>)
    ensures FirstStop(rs, NoStop) == |rs|
  {
    if rs != [] {
      FirstStopNever(rs[1..]);
    }
  }

  /** A release without a versioncode, before any other release. */
  function UncodedLog(): seq<Event> {
    [StartDocument, StartTag("changelog", map[]), StartTag(TAG_RELEASE, map[ATTRIBUTE_VERSION := "1.0"]),
     EndTag(TAG_RELEASE), EndTag("changelog"), EndDocument]
  }

  /**
   * On a first run ever (last version code -1) the "What's New" log stops at a
   * release whose code is missing (read as -1), where XmlParser's -1 means
   * "no bound" and keeps it.
   */
  lemma MissingCodeStopsRecentLog()
    ensures ReadLog(UncodedLog(), false, NO_VERSION) == Success(map[])
    ensures ReadLog(UncodedLog(), true, NO_VERSION) == Success(map[NO_VERSION := LibraryRelease(NO_VERSION, "1.0", [])])
    ensures XmlParsers.ParseLog(UncodedLog(), NO_VERSION) == Success([LibraryRelease(NO_VERSION, "1.0", [])])
  {
    UncodedStops();
    UncodedKept();
    var item := LibraryRelease(NO_VERSION, "1.0", []);
    assert IndexBy([item], Code) == map[NO_VERSION := item];
  }

  /** Bounded by -1, reading stops at the uncoded release. */
  lemma UncodedStops()
    ensures ReadReleases(UncodedLog(), 0, StopAtOrBelow(NO_VERSION), []) == Outcome([], None)
  {
    var ev, rule := UncodedLog(), StopAtOrBelow(NO_VERSION);
    ReadSkip(ev, 0, rule, []);
    ReadSkip(ev, 1, rule, []);
    assert VersionCodeOf(ev[2]) == NO_VERSION;
    assert ReleaseTag(ev, 2, rule) == Stop;
  }

  /** Without a bound, the uncoded release is read with code -1. */
  lemma UncodedKept()
    ensures ReadReleases(UncodedLog(), 0, NoStop, []) == Outcome([LibraryRelease(NO_VERSION, "1.0", [])], None)
  {
    var ev := UncodedLog();
    var item := LibraryRelease(NO_VERSION, "1.0", []);
    ReadSkip(ev, 0, NoStop, []);
    ReadSkip(ev, 1, NoStop, []);
    assert VersionCodeOf(ev[2]) == NO_VERSION;
    assert Scan(ev, 2, []) == Success(Body(3, []));
    assert ReleaseTag(ev, 2, NoStop) == Parsed(item, 3);
    ReadSkip(ev, 4, NoStop, [item]);
    assert ReadReleases(ev, 5, NoStop, [item]) == Outcome([item], None);
  }

  // ---------------------------------------------------------------------
  // Relaunching: the version code written is the one read next time
  // ---------------------------------------------------------------------

  /**
   * As written: an app that keeps the version code in its own preferences
   * file writes it to the default file, so the next launch still reports a
   * first run, and a first run ever.
   */
  method RelaunchAsWrittenCounterexample() returns (firstRun: bool, firstRunEver: bool)
    ensures firstRun && firstRunEver
  {
    var defaults := new SharedPreferences(map[]);
    var own := new SharedPreferences(map[]);
    var context := Context(defaults, Some(PackageInfo(2, Some("1.1"))));
    var first := new LibraryChangeLog.NewInstanceWith(context, own, [StartDocument, EndDocument], [StartDocument, EndDocument]);
    first.WriteCurrentVersionAsWritten();
    var next := new LibraryChangeLog.NewInstanceWith(context, own, [StartDocument, EndDocument], [StartDocument, EndDocument]);
    firstRun := next.IsFirstRun();
    firstRunEver := next.IsFirstRunEver();
  }

  /**
   * As intended: after writeCurrentVersion the next instance on the same
   * preferences is neither a first run nor, unless the app's own code is -1,
   * a first run ever.
   */
  method RelaunchAfterWrite(context: Context, preferences: SharedPreferences, masterXml: seq<Event>, localizedXml: seq<Event>)
    returns (firstRun: bool, firstRunEver: bool)
    modifies preferences
    ensures !firstRun
    ensures firstRunEver <==> CurrentCode(context) == NO_VERSION
  {
    var first := new LibraryChangeLog.NewInstanceWith(context, preferences, masterXml, localizedXml);
    first.WriteCurrentVersion();
    var next := new LibraryChangeLog.NewInstanceWith(context, preferences, masterXml, localizedXml);
    firstRun := next.IsFirstRun();
    firstRunEver := next.IsFirstRunEver();
  }

  /** With the default preferences the source's writeCurrentVersion already writes where init reads. */
  method RelaunchWithDefaultPreferences(context: Context, masterXml: seq<Event>, localizedXml: seq<Event>)
    returns (firstRun: bool, firstRunEver: bool)
    modifies context.defaultPreferences
    ensures !firstRun
    ensures firstRunEver <==> CurrentCode(context) == NO_VERSION
  {
    var first := new LibraryChangeLog.NewInstance(context, masterXml, localizedXml);
    first.WriteCurrentVersionAsWritten();
    var next := new LibraryChangeLog.NewInstance(context, masterXml, localizedXml);
    firstRun := next.IsFirstRun();
    firstRunEver := next.IsFirstRunEver();
  }
}
