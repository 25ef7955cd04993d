/**
 * The ChangeLogProviderBuilder of the tests: a reference ChangeLogProvider
 * built from releases added one by one.
 *
 * `build` hands out a provider whose full log is a copy of the builder's list
 * taken at that moment, while its since-log filters the builder's live list,
 * so releases added after `build` appear in the one and not in the other.
 */
module ChangeLogProviderBuilders {
  import opened Wrappers
  import opened JavaLang
  import opened ReleaseItems
  import opened VersionOrder

  class ChangeLogProviderBuilder {
    /** The values of the items in the builder's `releaseItems` list. */
    var releaseItems: seq<Release>

    constructor ()
      ensures releaseItems == []
    {
      releaseItems := [];
    }

    /**
     * addVersion: one item with a copy of `changes` goes to the end of the list
     * and the builder itself is returned; a null name throws and adds nothing.
     */
    method AddVersion(versionCode: Int32, versionName: Option<string>, date: Option<string>, changes: seq<string>)
      returns (r: Result<ChangeLogProviderBuilder, Exception>)
      modifies this
      ensures versionName.None? ==> r == Failure(NullPointerException(Some(VERSION_NAME_NULL))) && releaseItems == old(releaseItems)
      ensures versionName.Some? ==>
                r == Success(this) && releaseItems == old(releaseItems) + [Release(versionCode, versionName.value, date, changes)]
    {
      var list := new StringList.FromSeq(changes);
      var releaseItem := NewInstance(versionCode, versionName, date, Some(list));
      if releaseItem.Failure? {
        return Failure(releaseItem.error);
      }
      releaseItems := releaseItems + [releaseItem.value.Value()];
      r := Success(this);
    }

    /** build: a provider over a copy of the list as it is now, still tied to this builder. */
    method Build() returns (provider: BuiltProvider)
      ensures fresh(provider)
      ensures provider.safeReleaseItems == releaseItems && provider.builder == this
    {
      provider := new BuiltProvider(releaseItems, this);
    }
  }

  /** The anonymous ChangeLogProvider that `build` returns. */
  class BuiltProvider {
    const safeReleaseItems: seq<Release>
    const builder: ChangeLogProviderBuilder

    constructor (safeReleaseItems: seq<Release>, builder: ChangeLogProviderBuilder)
      ensures this.safeReleaseItems == safeReleaseItems && this.builder == builder
    {
      this.safeReleaseItems := safeReleaseItems;
      this.builder := builder;
    }

    /** getChangeLog: a read-only view of the copy taken at `build`. */
    function GetChangeLog(): seq<Release> {
      safeReleaseItems
    }

    /** getChangeLogSince: a new list of the builder's current items newer than `lastVersionCode`, in order. */
    method GetChangeLogSince(lastVersionCode: Int32) returns (result: seq<Release>)
      ensures result == NewerThan(builder.releaseItems, Code, lastVersionCode)
    {
      var releaseItems := builder.releaseItems;
      result := [];
      for i := 0 to |releaseItems|
        invariant result == NewerThan(releaseItems[..i], Code, lastVersionCode)
      {
        assert releaseItems[..i + 1][..i] == releaseItems[..i];
        var releaseItem := releaseItems[i];
        if releaseItem.versionCode > lastVersionCode {
          result := result + [releaseItem];
        }
      }
      assert releaseItems[..|releaseItems|] == releaseItems;
    }
  }

  /**
   * A release added after `build` is missing from the provider's full log but
   * present in its since-log.
   */
  method AddAfterBuild() returns (full: seq<Release>, since: seq<Release>)
    ensures full == [Release(1, "1.0", None, ["first"])]
    ensures since == [Release(1, "1.0", None, ["first"]), Release(2, "2.0", None, ["second"])]
  {
    var builder := new ChangeLogProviderBuilder();
    var b := builder.AddVersion(1, Some("1.0"), None, ["first"]);
    var provider := builder.Build();
    b := builder.AddVersion(2, Some("2.0"), None, ["second"]);
    full := provider.GetChangeLog();
    since := provider.GetChangeLogSince(0);
    assert NewerThan([Release(1, "1.0", None, ["first"])], Code, 0) == [Release(1, "1.0", None, ["first"])];
  }
}
