/**
 * de.cketti.library.changelog.ReleaseItem: the older release record, without a
 * date. Its constructor keeps the caller's list itself, writable and shared;
 * `newInstance` copies the list first. Lists of releases elsewhere hold the
 * value `LibraryRelease`.
 */
module LibraryReleaseItems {
  import opened Wrappers
  import opened JavaLang

  datatype LibraryRelease = LibraryRelease(versionCode: Int32, versionName: string, changes: seq<string>)

  /** The sort key of a release. */
  function Code(r: LibraryRelease): int {
    r.versionCode
  }

  const VERSION_NAME_NULL: string := "versionName == null"
  const CHANGES_NULL: string := "changes == null"

  class LibraryReleaseItem {
    const versionCode: Int32
    const versionName: string
    const changes: StringList

    /** The constructor body once its null checks have passed: stores `list` as it is. */
    constructor Init(versionCode: Int32, versionName: string, list: StringList)
      ensures this.versionCode == versionCode && this.versionName == versionName && changes == list
    {
      this.versionCode := versionCode;
      this.versionName := versionName;
      this.changes := list;
    }

    function Value(): LibraryRelease
      reads changes
    {
      LibraryRelease(versionCode, versionName, changes.elems)
    }
  }

  /** The package-private constructor: null name, then null list, are rejected; any int code is accepted. */
  method Create(versionCode: Int32, versionName: Option<string>, changes: Option<StringList>)
    returns (r: Result<LibraryReleaseItem, Exception>)
    ensures versionName.None? ==> r == Failure(NullPointerException(Some(VERSION_NAME_NULL)))
    ensures versionName.Some? && changes.None? ==> r == Failure(NullPointerException(Some(CHANGES_NULL)))
    ensures versionName.Some? && changes.Some? ==>
              r.Success? && r.value.changes == changes.value
              && r.value.Value() == LibraryRelease(versionCode, versionName.value, changes.value.elems)
  {
    if versionName.None? {
      return Failure(NullPointerException(Some(VERSION_NAME_NULL)));
    }
    if changes.None? {
      return Failure(NullPointerException(Some(CHANGES_NULL)));
    }
    var item := new LibraryReleaseItem.Init(versionCode, versionName.value, changes.value);
    r := Success(item);
  }

  /** newInstance: copies the caller's list (a null list fails in the copy) before construction. */
  method NewInstance(versionCode: Int32, versionName: Option<string>, changes: Option<StringList>)
    returns (r: Result<LibraryReleaseItem, Exception>)
    ensures changes.None? ==> r == Failure(NullPointerException(None))
    ensures changes.Some? && versionName.None? ==> r == Failure(NullPointerException(Some(VERSION_NAME_NULL)))
    ensures changes.Some? && versionName.Some? ==>
              r.Success? && fresh(r.value.changes)
              && r.value.Value() == LibraryRelease(versionCode, versionName.value, changes.value.elems)
  {
    if changes.None? {
      return Failure(NullPointerException(None));
    }
    var copied := new StringList.Copy(changes.value);
    r := Create(versionCode, versionName, Some(copied));
  }

  /** The list the constructor was given and the item's list are one object: a write through the item reaches the caller. */
  method WriteThroughItem(versionCode: Int32, versionName: string, list: StringList, x: string)
    returns (item: LibraryReleaseItem)
    modifies list
    ensures item.changes == list
    ensures list.elems == old(list.elems) + [x]
    ensures item.Value() == LibraryRelease(versionCode, versionName, old(list.elems) + [x])
  {
    var r := Create(versionCode, Some(versionName), Some(list));
    item := r.value;
    item.changes.Add(x);
  }
}
