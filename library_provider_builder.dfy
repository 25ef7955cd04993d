/**
 * The ChangeLogProviderBuilder of the library tests: the same reference
 * provider over the older, dateless ReleaseItem. Its full log is the copy
 * taken at `build`; its since-log filters the builder's live list.
 */
module LibraryChangeLogProviderBuilders {
  import opened Wrappers
  import opened JavaLang
  import opened LibraryReleaseItems
  import opened VersionOrder

  class LibraryChangeLogProviderBuilder {
    /** The values of the items in the builder's `releaseItems` list. */
    var releaseItems: seq<LibraryRelease>

    constructor ()
      ensures releaseItems == []
    {
      releaseItems := [];
    }

    /** addVersion: one item with a copy of `changes` at the end, the builder returned; a null name throws and adds nothing. */
    method AddVersion(versionCode: Int32, versionName: Option<string>, changes: seq<string>)
      returns (r: Result<LibraryChangeLogProviderBuilder, Exception>)
      modifies this
      ensures versionName.None? ==> r == Failure(NullPointerException(Some(VERSION_NAME_NULL))) && releaseItems == old(releaseItems)
      ensures versionName.Some? ==>
                r == Success(this) && releaseItems == old(releaseItems) + [LibraryRelease(versionCode, versionName.value, changes)]
    {
      var list := new StringList.FromSeq(changes);
      var releaseItem := NewInstance(versionCode, versionName, Some(list));
      if releaseItem.Failure? {
        return Failure(releaseItem.error);
      }
      releaseItems := releaseItems + [releaseItem.value.Value()];
      r := Success(this);
    }

    /** build: a provider over a copy of the list as it is now, still tied to this builder. */
    method Build() returns (provider: LibraryBuiltProvider)
      ensures fresh(provider)
      ensures provider.safeReleaseItems == releaseItems && provider.builder == this
    {
      provider := new LibraryBuiltProvider(releaseItems, this);
    }
  }

  /** The anonymous provider that `build` returns. */
  class LibraryBuiltProvider {
    const safeReleaseItems: seq<LibraryRelease>
    const builder: LibraryChangeLogProviderBuilder

    constructor (safeReleaseItems: seq<LibraryRelease>, builder: LibraryChangeLogProviderBuilder)
      ensures this.safeReleaseItems == safeReleaseItems && this.builder == builder
    {
      this.safeReleaseItems := safeReleaseItems;
      this.builder := builder;
    }

    /** getChangeLog: a read-only view of the copy taken at `build`. */
    function GetChangeLog(): seq<LibraryRelease> {
      safeReleaseItems
    }

    /** getChangeLogSince: a new list of the builder's current items newer than `lastVersionCode`, in order. */
    method GetChangeLogSince(lastVersionCode: Int32) returns (result: seq<LibraryRelease>)
      ensures result == NewerThan(builder.releaseItems, Code, lastVersionCode)
    {
      var releaseItems := builder.releaseItems;
      result := [];
      for i := 0 to |releaseItems|
        invariant result == NewerThan(releaseItems[..i], Code, lastVersionCode)
      {
        assert releaseItems[..i + 1][..i] == releaseItems[..i];
        var releaseItem := releaseItems[i];
        if releaseItem.versionCode > lastVersionCode {
          result := result + [releaseItem];
        }
      }
      assert releaseItems[..|releaseItems|] == releaseItems;
    }
  }

  /** Until something is added after `build`, the since-log is the full log filtered. */
  method SinceFiltersFullLog(builder: LibraryChangeLogProviderBuilder, lastVersionCode: Int32)
    returns (full: seq<LibraryRelease>, since: seq<LibraryRelease>)
    ensures since == NewerThan(full, Code, lastVersionCode)
    ensures forall x :: x in since <==> x in full && x.versionCode > lastVersionCode
  {
    var provider := builder.Build();
    full := provider.GetChangeLog();
    since := provider.GetChangeLogSince(lastVersionCode);
    NewerThanMembers(full, Code, lastVersionCode);
  }

  /** A release added after `build` shows in the since-log and not in the full log. */
  method AddAfterBuild() returns (full: seq<LibraryRelease>, since: seq<LibraryRelease>)
    ensures full == []
    ensures since == [LibraryRelease(1, "1.0", ["first"])]
  {
    var builder := new LibraryChangeLogProviderBuilder();
    var provider := builder.Build();
    var b := builder.AddVersion(1, Some("1.0"), ["first"]);
    full := provider.GetChangeLog();
    since := provider.GetChangeLogSince(0);
  }
}
