/**
 * The Android collaborators of the change-log code, reduced to what it uses:
 * SparseArray (an int-keyed map that iterates its keys in ascending order),
 * SharedPreferences (a persistent key-value store of ints) and the package
 * information of the running app.
 */
module Android {
  import opened Wrappers
  import opened JavaLang

  predicate StrictlyAscending(s: seq<int>) {
    forall i, j :: 0 <= i < j < |s| ==> s[i] < s[j]
  }

  /** Adds `k` to an ascending key list, keeping it ascending and free of repeats. */
  function InsertKey(keys: seq<int>, k: int): (r: seq<int>)
    requires StrictlyAscending(keys)
    ensures StrictlyAscending(r)
    ensures forall x :: x in r <==> x in keys || x == k
  {
    if keys == [] || k < keys[0] then [k] + keys
    else if k == keys[0] then keys
    else
      var rest := InsertKey(keys[1..], k);
      assert forall j :: 0 <= j < |rest| ==> keys[0] < rest[j] by {
        forall j | 0 <= j < |rest| ensures keys[0] < rest[j] {
          assert rest[j] in rest;
        }
      }
      [keys[0]] + rest
  }

  /** android.util.SparseArray<V>: `keys` lists the keys of `contents` in ascending order. */
  class SparseArray<V> {
    var keys: seq<int>
    var contents: map<int, V>

    ghost predicate Valid()
      reads this
    {
      StrictlyAscending(keys) && forall k :: k in contents <==> k in keys
    }

    constructor ()
      ensures Valid() && contents == map[] && keys == []
    {
      keys, contents := [], map[];
    }

    /** put(key, value): adds the mapping or replaces the value under an existing key. */
    method Put(k: int, v: V)
      requires Valid()
      modifies this
      ensures Valid() && contents == old(contents)[k := v]
    {
      keys := InsertKey(keys, k);
      contents := contents[k := v];
    }

    /** get(key, valueIfKeyNotFound). */
    function Get(k: int, default: V): V
      reads this
    {
      if k in contents then contents[k] else default
    }

    function Size(): int
      reads this
    {
      |keys|
    }

    function KeyAt(i: int): int
      reads this
      requires 0 <= i < |keys|
    {
      keys[i]
    }
  }

  /** The map a SparseArray holds after `put(key(x), x)` for each `x` of `s` in turn, from empty. */
  function IndexBy<V>(s: seq<V>, key: V -> int): (m: map<int, V>)
    ensures forall k :: k in m ==> key(m[k]) == k
    ensures forall k :: k in m <==> exists i :: 0 <= i < |s| && key(s[i]) == k
  {
    if s == [] then map[]
    else
      var m := IndexBy(s[..|s| - 1], key);
      assert forall i :: 0 <= i < |s| - 1 ==> s[..|s| - 1][i] == s[i];
      m[key(s[|s| - 1]) := s[|s| - 1]]
  }

  /** Every value the map holds is one of the entries of `s`. */
  lemma {:induction false} IndexByValues<V>(s: seq<V>, key: V -> int, k: int)
    requires k in IndexBy(s, key)
    ensures exists i :: 0 <= i < |s| && s[i] == IndexBy(s, key)[k]
  {
    var last := |s| - 1;
    if key(s[last]) != k {
      IndexByValues(s[..last], key, k);
      var i :| 0 <= i < last && s[..last][i] == IndexBy(s[..last], key)[k];
      assert s[i] == s[..last][i];
    } else {
      assert s[last] == IndexBy(s, key)[k];
    }
  }

  /** A later entry with the same key overwrites an earlier one: each key holds the last entry with that key. */
  lemma {:induction false} IndexByKeepsLast<V>(s: seq<V>, key: V -> int, i: nat)
    requires i < |s| && forall j :: i < j < |s| ==> key(s[j]) != key(s[i])
    ensures key(s[i]) in IndexBy(s, key) && IndexBy(s, key)[key(s[i])] == s[i]
  {
    if i < |s| - 1 {
      IndexByKeepsLast(s[..|s| - 1], key, i);
    }
  }

  /** SharedPreferences, restricted to the int values the change log stores. */
  class SharedPreferences {
    var ints: map<string, Int32>

    constructor (ints: map<string, Int32>)
      ensures this.ints == ints
    {
      this.ints := ints;
    }

    /** getInt(key, defValue). */
    function GetInt(key: string, defValue: Int32): Int32
      reads this
    {
      if key in ints then ints[key] else defValue
    }

    /** edit().putInt(key, value) followed by apply() or commit(). */
    method PutInt(key: string, value: Int32)
      modifies this
      ensures ints == old(ints)[key := value]
    {
      ints := ints[key := value];
    }
  }

  /** What PackageManager.getPackageInfo reports about the running app. */
  datatype PackageInfo = PackageInfo(versionCode: Int32, versionName: Option<string>)

  /**
   * The parts of a Context the change log reaches through it: the default
   * SharedPreferences file and the app's own package information (None when
   * getPackageInfo throws NameNotFoundException).
   */
  datatype Context = Context(defaultPreferences: SharedPreferences, packageInfo: Option<PackageInfo>)
}
