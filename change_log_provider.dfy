/**
 * ChangeLogProvider: a source of releases with two queries, the whole log
 * (`getChangeLog`) and the releases newer than a version code
 * (`getChangeLogSince`).
 *
 * The providers are the test builder's provider and MergedChangeLogProvider
 * over two other providers; `Provider` lists them. What each query returns is
 * given by `ChangeLogOf` and `SinceOf`; `HonoursSince` and `SinceFromLog` are
 * the promises of the interface's documentation.
 */
module ChangeLogProviders {
  import opened Wrappers
  import opened JavaLang
  import opened ReleaseItems
  import opened VersionOrder
  import opened MergedChangeLogProviders
  import opened ChangeLogProviderBuilders

  datatype Provider =
    | Built(provider: BuiltProvider)
    | Merged(master: Provider, localized: Provider)

  const MASTER_NULL: string := "masterChangeLogProvider == null"
  const LOCALIZED_NULL: string := "localizedChangeLogProvider == null"

  /** The objects whose state the queries read: the builders behind the built providers. */
  function Footprint(p: Provider): set<object> {
    match p
    case Built(b) => {b.builder}
    case Merged(m, l) => Footprint(m) + Footprint(l)
  }

  /** getChangeLog(). */
  function ChangeLogOf(p: Provider): seq<Release>
    reads Footprint(p)
  {
    match p
    case Built(b) => b.GetChangeLog()
    case Merged(m, l) => MergeSpec(ChangeLogOf(m), ChangeLogOf(l))
  }

  /** getChangeLogSince(lastVersionCode): a merged provider asks both providers with the same code. */
  function SinceOf(p: Provider, lastVersionCode: Int32): seq<Release>
    reads Footprint(p)
  {
    match p
    case Built(b) => NewerThan(b.builder.releaseItems, Code, lastVersionCode)
    case Merged(m, l) => MergeSpec(SinceOf(m, lastVersionCode), SinceOf(l, lastVersionCode))
  }

  /** The MergedChangeLogProvider constructor: a null master is reported first, then a null localized provider. */
  function NewMerged(master: Option<Provider>, localized: Option<Provider>): (r: Result<Provider, Exception>)
    ensures master.None? <==> r == Failure(NullPointerException(Some(MASTER_NULL)))
    ensures master.Some? && localized.None? <==> r == Failure(NullPointerException(Some(LOCALIZED_NULL)))
    ensures r.Success? <==> master.Some? && localized.Some?
    ensures r.Success? ==> r.value.Merged? && r.value.master == master.value && r.value.localized == localized.value
  {
    if master.None? then Failure(NullPointerException(Some(MASTER_NULL)))
    else if localized.None? then Failure(NullPointerException(Some(LOCALIZED_NULL)))
    else Success(Merged(master.value, localized.value))
  }

  lemma {:induction false} FootprintAllocated(p: Provider)
    ensures forall o :: o in Footprint(p) ==> allocated(o)
  {
    match p
    case Built(b) =>
    case Merged(m, l) =>
      FootprintAllocated(m);
      FootprintAllocated(l);
  }

  /** getChangeLog, run: a merged provider asks both providers, then merges. */
  method GetChangeLog(p: Provider) returns (r: seq<Release>)
    ensures r == ChangeLogOf(p)
    decreases p
  {
    match p
    case Built(b) =>
      r := b.GetChangeLog();
    case Merged(m, l) =>
      FootprintAllocated(p);
      var masterChangeLog := GetChangeLog(m);
      var localizedChangeLog := GetChangeLog(l);
      r := Merge(masterChangeLog, localizedChangeLog);
      assert unchanged(Footprint(p));
  }

  /** getChangeLogSince, run. */
  method GetChangeLogSince(p: Provider, lastVersionCode: Int32) returns (r: seq<Release>)
    ensures r == SinceOf(p, lastVersionCode)
    decreases p
  {
    match p
    case Built(b) =>
      r := b.GetChangeLogSince(lastVersionCode);
    case Merged(m, l) =>
      FootprintAllocated(p);
      var masterChangeLog := GetChangeLogSince(m, lastVersionCode);
      var localizedChangeLog := GetChangeLogSince(l, lastVersionCode);
      r := Merge(masterChangeLog, localizedChangeLog);
      assert unchanged(Footprint(p));
  }

  /** No release the since-query returns has a version code at or below the one asked for. */
  predicate HonoursSince(p: Provider, lastVersionCode: Int32)
    reads Footprint(p)
  {
    forall i :: 0 <= i < |SinceOf(p, lastVersionCode)| ==> SinceOf(p, lastVersionCode)[i].versionCode > lastVersionCode
  }

  /** The since-query returns exactly the newer part of the full log. */
  predicate SinceFromLog(p: Provider, lastVersionCode: Int32)
    reads Footprint(p)
  {
    SinceOf(p, lastVersionCode) == NewerThan(ChangeLogOf(p), Code, lastVersionCode)
  }

  /** Every built provider's list is still the copy `build` took: nothing was added afterwards. */
  predicate Untouched(p: Provider)
    reads Footprint(p)
  {
    match p
    case Built(b) => b.builder.releaseItems == b.safeReleaseItems
    case Merged(m, l) => Untouched(m) && Untouched(l)
  }

  /** A merged provider honours the since-contract when both of its providers do. */
  lemma MergedHonoursSince(m: Provider, l: Provider, lastVersionCode: Int32)
    requires HonoursSince(m, lastVersionCode) && HonoursSince(l, lastVersionCode)
    ensures HonoursSince(Merged(m, l), lastVersionCode)
  {
    var merged := SinceOf(Merged(m, l), lastVersionCode);
    forall i | 0 <= i < |merged| ensures merged[i].versionCode > lastVersionCode {
      LocalizedOnlyDropped(SinceOf(m, lastVersionCode), SinceOf(l, lastVersionCode), merged[i]);
    }
  }

  /** Every provider honours the since-contract. */
  lemma {:induction false} AllHonourSince(p: Provider, lastVersionCode: Int32)
    ensures HonoursSince(p, lastVersionCode)
  {
    match p
    case Built(b) =>
      NewerThanMembers(b.builder.releaseItems, Code, lastVersionCode);
      var s := SinceOf(p, lastVersionCode);
      forall i | 0 <= i < |s| ensures s[i].versionCode > lastVersionCode {
        assert s[i] in s;
      }
    case Merged(m, l) =>
      AllHonourSince(m, lastVersionCode);
      AllHonourSince(l, lastVersionCode);
      MergedHonoursSince(m, l, lastVersionCode);
  }

  /** Until a builder gets a release after `build`, every provider's since-log is the newer part of its full log. */
  lemma {:induction false} UntouchedSinceFromLog(p: Provider, lastVersionCode: Int32)
    requires Untouched(p)
    ensures SinceFromLog(p, lastVersionCode)
  {
    match p
    case Built(b) =>
    case Merged(m, l) =>
      UntouchedSinceFromLog(m, lastVersionCode);
      UntouchedSinceFromLog(l, lastVersionCode);
      MergeNewerThan(ChangeLogOf(m), ChangeLogOf(l), lastVersionCode);
  }

  /** A release added after `build` shows in the since-log of a built provider but not in its full log. */
  method AddAfterBuildBreaksSinceFromLog() returns (p: Provider)
    ensures !SinceFromLog(p, 0)
  {
    var builder := new ChangeLogProviderBuilder();
    var built := builder.Build();
    var b := builder.AddVersion(1, Some("1.0"), None, ["first"]);
    p := Built(built);
    var first := Release(1, "1.0", None, ["first"]);
    assert builder.releaseItems == [first];
    assert [first][..0] == [];
    assert NewerThan([first], Code, 0) == [first];
    assert ChangeLogOf(p) == [];
    assert SinceOf(p, 0) == [first];
  }
}
