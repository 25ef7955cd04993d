/**
 * de.cketti.changelog.ReleaseItem: one release of the change log (version
 * code, version name, optional date, list of changes).
 *
 * The Java object holds its changes as a read-only view of a list. `newInstance`
 * copies the caller's list first; the package-private constructor wraps the
 * caller's list as it is, so later writes to that list show through the item.
 * The class `ReleaseItem` models the object with that sharing; the datatype
 * `Release` is its value, which is what `equals` compares and what every list
 * of releases elsewhere in this model holds.
 */
module ReleaseItems {
  import opened Wrappers
  import opened JavaLang

  /** The value of a ReleaseItem; `date` is None for a null date. */
  datatype Release = Release(versionCode: Int32, versionName: string, date: Option<string>, changes: seq<string>)

  /** The sort key of a release. */
  function Code(r: Release): int {
    r.versionCode
  }

  const VERSION_NAME_NULL: string := "versionName == null"
  const CHANGES_NULL: string := "changes == null"

  class ReleaseItem {
    const versionCode: Int32
    const versionName: string
    const date: Option<string>
    const changes: UnmodifiableList

    /** The constructor body once its null checks have passed: wraps `list` without copying. */
    constructor Init(versionCode: Int32, versionName: string, date: Option<string>, list: StringList)
      ensures this.versionCode == versionCode && this.versionName == versionName && this.date == date
      ensures changes.backing == list
    {
      this.versionCode := versionCode;
      this.versionName := versionName;
      this.date := date;
      this.changes := new UnmodifiableList(list);
    }

    function Value(): Release
      reads changes.backing
    {
      Release(versionCode, versionName, date, changes.Elems())
    }
  }

  /**
   * The package-private constructor: rejects a null name, then a null list, and
   * otherwise keeps the caller's list itself behind a read-only view.
   */
  method Create(versionCode: Int32, versionName: Option<string>, date: Option<string>, changes: Option<StringList>)
    returns (r: Result<ReleaseItem, Exception>)
    ensures versionName.None? ==> r == Failure(NullPointerException(Some(VERSION_NAME_NULL)))
    ensures versionName.Some? && changes.None? ==> r == Failure(NullPointerException(Some(CHANGES_NULL)))
    ensures versionName.Some? && changes.Some? ==>
              r.Success? && r.value.changes.backing == changes.value
              && r.value.Value() == Release(versionCode, versionName.value, date, changes.value.elems)
  {
    if versionName.None? {
      return Failure(NullPointerException(Some(VERSION_NAME_NULL)));
    }
    if changes.None? {
      return Failure(NullPointerException(Some(CHANGES_NULL)));
    }
    var item := new ReleaseItem.Init(versionCode, versionName.value, date, changes.value);
    r := Success(item);
  }

  /**
   * newInstance: copies the caller's list (a null list fails in that copy,
   * with no message) and hands the copy to the constructor.
   */
  method NewInstance(versionCode: Int32, versionName: Option<string>, date: Option<string>, changes: Option<StringList>)
    returns (r: Result<ReleaseItem, Exception>)
    ensures changes.None? ==> r == Failure(NullPointerException(None))
    ensures changes.Some? && versionName.None? ==> r == Failure(NullPointerException(Some(VERSION_NAME_NULL)))
    ensures changes.Some? && versionName.Some? ==>
              r.Success? && fresh(r.value.changes.backing)
              && r.value.Value() == Release(versionCode, versionName.value, date, changes.value.elems)
  {
    if changes.None? {
      return Failure(NullPointerException(None));
    }
    var copied := new StringList.Copy(changes.value);
    r := Create(versionCode, versionName, date, Some(copied));
  }

  /** Writing to the caller's list after newInstance leaves the item as it was. */
  method CopyIsolatesCaller(versionCode: Int32, versionName: string, date: Option<string>, list: StringList, x: string)
    returns (item: ReleaseItem)
    modifies list
    ensures list.elems == old(list.elems) + [x]
    ensures item.Value() == Release(versionCode, versionName, date, old(list.elems))
  {
    var r := NewInstance(versionCode, Some(versionName), date, Some(list));
    item := r.value;
    list.Add(x);
  }

  /** Writing to the caller's list after the package-private constructor shows through the item. */
  method WrapSharesCaller(versionCode: Int32, versionName: string, date: Option<string>, list: StringList, x: string)
    returns (item: ReleaseItem)
    modifies list
    ensures item.Value() == Release(versionCode, versionName, date, old(list.elems) + [x])
  {
    var r := Create(versionCode, Some(versionName), date, Some(list));
    item := r.value;
    list.Add(x);
  }

  /** A write through the item's read-only view throws and changes nothing. */
  method AddThroughView(item: ReleaseItem, x: string) returns (thrown: Exception)
    ensures thrown == UnsupportedOperationException
    ensures item.Value() == old(item.Value())
  {
    thrown := item.changes.Add(x);
  }

  // ---------------------------------------------------------------------
  // equals and hashCode
  // ---------------------------------------------------------------------

  /** AbstractList.equals on two lists of strings: same length, equal elements pairwise. */
  function ListEquals(xs: seq<string>, ys: seq<string>): bool {
    if xs == [] || ys == [] then xs == [] && ys == []
    else xs[0] == ys[0] && ListEquals(xs[1..], ys[1..])
  }

  /** Null-aware comparison of the optional dates. */
  function DateEquals(a: Option<string>, b: Option<string>): bool {
    if a.Some? then b.Some? && a.value == b.value else b.None?
  }

  /** ReleaseItem.equals(o); `o` is None for null (an object of another class is never equal either). */
  function Equals(a: Release, o: Option<Release>): bool {
    match o
    case None => false
    case Some(b) =>
      if a.versionCode != b.versionCode then false
      else if a.versionName != b.versionName then false
      else if !DateEquals(a.date, b.date) then false
      else ListEquals(a.changes, b.changes)
  }

  lemma {:induction false} ListEqualsIsEquality(xs: seq<string>, ys: seq<string>)
    ensures ListEquals(xs, ys) <==> xs == ys
  {
    if xs != [] && ys != [] {
      ListEqualsIsEquality(xs[1..], ys[1..]);
      assert xs == [xs[0]] + xs[1..] && ys == [ys[0]] + ys[1..];
    }
  }

  /** Two items are equal exactly when code, name, date and changes all agree. */
  lemma EqualsIsValueEquality(a: Release, b: Release)
    ensures Equals(a, Some(b)) <==> a == b
    ensures !Equals(a, None)
  {
    ListEqualsIsEquality(a.changes, b.changes);
  }

  /** String.hashCode: h = 31 * h + c over the characters, in 32-bit arithmetic. */
  function StringHash(s: string): Int32 {
    if s == [] then 0 else Wrap32(31 * StringHash(s[..|s| - 1]) + s[|s| - 1] as int)
  }

  /** List.hashCode: h = 31 * h + element hash, starting from 1. */
  function ListHash(l: seq<string>): Int32 {
    if l == [] then 1 else Wrap32(31 * ListHash(l[..|l| - 1]) + StringHash(l[|l| - 1]))
  }

  /** ReleaseItem.hashCode. */
  function HashCode(r: Release): Int32 {
    var h0 := r.versionCode;
    var h1 := Wrap32(31 * h0 + StringHash(r.versionName));
    var h2 := Wrap32(31 * h1 + (if r.date.Some? then StringHash(r.date.value) else 0));
    Wrap32(31 * h2 + ListHash(r.changes))
  }

  /** equals and hashCode agree: equal items have equal hash codes. */
  lemma EqualItemsHashAlike(a: Release, b: Release)
    requires Equals(a, Some(b))
    ensures HashCode(a) == HashCode(b)
  {
    EqualsIsValueEquality(a, b);
  }
}
