/**
 * Ordering change-log entries newest first.
 *
 * Both change-log engines sort with `Collections.sort` and a comparator that
 * orders by descending version code and calls equal codes a tie. That JDK sort
 * is stable, so its result is the unique sequence that is sorted by descending
 * code and keeps the input order among entries with equal codes. `SortDesc`
 * computes that sequence (by stable insertion); `StableSortUnique` shows that
 * any other stable sort, the JDK's included, yields the very same sequence.
 *
 * The module is generic in the entry type: `key` reads an entry's version code.
 */
module VersionOrder {

  /**
   * The version-code comparator: positive when `lhs` is older than `rhs`,
   * negative when it is newer, zero for equal codes.
   */
  function Compare(lhs: int, rhs: int): int {
    if lhs < rhs then 1 else if lhs > rhs then -1 else 0
  }

  /** The comparator is a consistent total preorder, as `Collections.sort` requires. */
  lemma CompareIsTotalPreorder(a: int, b: int, c: int)
    ensures Compare(a, b) == -Compare(b, a)
    ensures Compare(a, b) <= 0 && Compare(b, c) <= 0 ==> Compare(a, c) <= 0
    ensures Compare(a, b) == 0 <==> a == b
    ensures Compare(a, b) < 0 <==> a > b
  {
  }

  /** Entries are ordered by non-increasing code. */
  ghost predicate SortedDesc<T>(s: seq<T>, key: T -> int) {
    forall i, j :: 0 <= i < j < |s| ==> key(s[i]) >= key(s[j])
  }

  /** The entries of `s` whose code is `k`, in their order in `s`. */
  function WithKey<T>(s: seq<T>, key: T -> int, k: int): seq<T> {
    if s == [] then []
    else (if key(s[0]) == k then [s[0]] else []) + WithKey(s[1..], key, k)
  }

  /** Places `x` in front of the first entry that is not newer than it. */
  function Insert<T>(x: T, t: seq<T>, key: T -> int): seq<T> {
    if t == [] || Compare(key(x), key(t[0])) <= 0 then [x] + t
    else [t[0]] + Insert(x, t[1..], key)
  }

  /** The list `Collections.sort(list, comparator)` leaves behind. */
  function SortDesc<T>(s: seq<T>, key: T -> int): seq<T> {
    if s == [] then [] else Insert(s[0], SortDesc(s[1..], key), key)
  }

  /** `s` backwards. */
  function Reverse<T>(s: seq<T>): (r: seq<T>)
    ensures |r| == |s|
    ensures forall i :: 0 <= i < |s| ==> r[i] == s[|s| - 1 - i]
  {
    if s == [] then [] else Reverse(s[1..]) + [s[0]]
  }

  lemma {:induction false} InsertPermutes<T>(x: T, t: seq<T>, key: T -> int)
    ensures multiset(Insert(x, t, key)) == multiset(t) + multiset{x}
  {
    if t != [] && Compare(key(x), key(t[0])) > 0 {
      InsertPermutes(x, t[1..], key);
      assert t == [t[0]] + t[1..];
    }
  }

  lemma {:induction false} InsertSorted<T>(x: T, t: seq<T>, key: T -> int)
    requires SortedDesc(t, key)
    ensures SortedDesc(Insert(x, t, key), key)
  {
    if t != [] && Compare(key(x), key(t[0])) > 0 {
      var rest := Insert(x, t[1..], key);
      InsertSorted(x, t[1..], key);
      InsertPermutes(x, t[1..], key);
      var r := Insert(x, t, key);
      assert r == [t[0]] + rest;
      forall j | 0 < j < |r| ensures key(r[0]) >= key(r[j]) {
        assert r[j] == rest[j - 1];
        assert r[j] in multiset(rest);
        if r[j] != x {
          assert r[j] in multiset(t[1..]);
          var m :| 0 <= m < |t[1..]| && t[1..][m] == r[j];
          assert t[1..][m] == t[m + 1];
        }
      }
    }
  }

  /** Insertion keeps the input order within every code: `x` goes before the entries of its own code. */
  lemma {:induction false} InsertWithKey<T>(x: T, t: seq<T>, key: T -> int, k: int)
    ensures WithKey(Insert(x, t, key), key, k)
            == if key(x) == k then [x] + WithKey(t, key, k) else WithKey(t, key, k)
  {
    var r := Insert(x, t, key);
    if t == [] || Compare(key(x), key(t[0])) <= 0 {
      assert r[0] == x && r[1..] == t;
    } else {
      var r' := Insert(x, t[1..], key);
      InsertWithKey(x, t[1..], key, k);
      assert r[0] == t[0] && r[1..] == r';
      var p := if key(t[0]) == k then [t[0]] else [];
      assert WithKey(r, key, k) == p + WithKey(r', key, k);
      assert WithKey(t, key, k) == p + WithKey(t[1..], key, k);
      if key(x) == k {
        assert p == [];
      }
    }
  }

  lemma {:induction false} SortDescPermutes<T>(s: seq<T>, key: T -> int)
    ensures multiset(SortDesc(s, key)) == multiset(s)
  {
    if s != [] {
      SortDescPermutes(s[1..], key);
      InsertPermutes(s[0], SortDesc(s[1..], key), key);
      assert s == [s[0]] + s[1..];
    }
  }

  lemma {:induction false} SortDescSorted<T>(s: seq<T>, key: T -> int)
    ensures SortedDesc(SortDesc(s, key), key)
  {
    if s != [] {
      SortDescSorted(s[1..], key);
      InsertSorted(s[0], SortDesc(s[1..], key), key);
    }
  }

  lemma {:induction false} SortDescStable<T>(s: seq<T>, key: T -> int, k: int)
    ensures WithKey(SortDesc(s, key), key, k) == WithKey(s, key, k)
  {
    if s != [] {
      SortDescStable(s[1..], key, k);
      InsertWithKey(s[0], SortDesc(s[1..], key), key, k);
    }
  }

  /** SortDesc is a stable sort by descending code: sorted, a permutation, equal codes in input order. */
  lemma SortDescCorrect<T>(s: seq<T>, key: T -> int)
    ensures |SortDesc(s, key)| == |s|
    ensures SortedDesc(SortDesc(s, key), key)
    ensures multiset(SortDesc(s, key)) == multiset(s)
    ensures forall k :: WithKey(SortDesc(s, key), key, k) == WithKey(s, key, k)
  {
    SortDescPermutes(s, key);
    assert |multiset(SortDesc(s, key))| == |multiset(s)|;
    SortDescSorted(s, key);
    forall k ensures WithKey(SortDesc(s, key), key, k) == WithKey(s, key, k) {
      SortDescStable(s, key, k);
    }
  }

  lemma {:induction false} WithKeyWitness<T>(s: seq<T>, key: T -> int, k: int)
    requires WithKey(s, key, k) != []
    ensures exists i :: 0 <= i < |s| && key(s[i]) == k
  {
    if key(s[0]) != k {
      WithKeyWitness(s[1..], key, k);
      var i :| 0 <= i < |s[1..]| && key(s[1..][i]) == k;
      assert s[i + 1] == s[1..][i];
    }
  }

  lemma BothEmptyOrNot<T>(t: seq<T>, u: seq<T>, key: T -> int)
    requires forall k :: WithKey(t, key, k) == WithKey(u, key, k)
    ensures t == [] <==> u == []
  {
    if t != [] {
      assert WithKey(t, key, key(t[0])) != [];
    }
    if u != [] {
      assert WithKey(u, key, key(u[0])) != [];
    }
  }

  /** Two sorted sequences that agree on the entries of every code are equal. */
  lemma {:induction false} SortedDeterminedByKeys<T>(t: seq<T>, u: seq<T>, key: T -> int)
    requires SortedDesc(t, key) && SortedDesc(u, key)
    requires forall k :: WithKey(t, key, k) == WithKey(u, key, k)
    ensures t == u
    decreases |t|
  {
    BothEmptyOrNot(t, u, key);
    if t != [] {
      var a, b := key(t[0]), key(u[0]);
      assert WithKey(t, key, a)[0] == t[0];
      assert WithKey(u, key, b)[0] == u[0];
      WithKeyWitness(t, key, b);
      WithKeyWitness(u, key, a);
      assert a == b;
      assert t[0] == u[0];
      forall k ensures WithKey(t[1..], key, k) == WithKey(u[1..], key, k) {
        var p := if a == k then [t[0]] else [];
        assert WithKey(t, key, k) == p + WithKey(t[1..], key, k);
        assert WithKey(u, key, k) == p + WithKey(u[1..], key, k);
        assert WithKey(t[1..], key, k) == (p + WithKey(t[1..], key, k))[|p|..];
        assert WithKey(u[1..], key, k) == (p + WithKey(u[1..], key, k))[|p|..];
      }
      SortedDeterminedByKeys(t[1..], u[1..], key);
      assert t == [t[0]] + t[1..] && u == [u[0]] + u[1..];
    }
  }

  /**
   * Any stable descending sort of `s` is SortDesc(s): a sequence sorted by
   * descending code that keeps the input order within every code is unique.
   */
  lemma StableSortUnique<T>(s: seq<T>, t: seq<T>, key: T -> int)
    requires SortedDesc(t, key)
    requires forall k :: WithKey(t, key, k) == WithKey(s, key, k)
    ensures t == SortDesc(s, key)
  {
    SortDescCorrect(s, key);
    SortedDeterminedByKeys(t, SortDesc(s, key), key);
  }

  lemma {:induction false} InsertOldest<T>(x: T, t: seq<T>, key: T -> int)
    requires forall i :: 0 <= i < |t| ==> key(t[i]) > key(x)
    ensures Insert(x, t, key) == t + [x]
  {
    if t != [] {
      InsertOldest(x, t[1..], key);
      assert t == [t[0]] + t[1..];
    }
  }

  /** Sorting a list whose codes strictly increase just reverses it. */
  lemma {:induction false} SortDescOfAscending<T>(s: seq<T>, key: T -> int)
    requires forall i, j :: 0 <= i < j < |s| ==> key(s[i]) < key(s[j])
    ensures SortDesc(s, key) == Reverse(s)
  {
    if s != [] {
      SortDescOfAscending(s[1..], key);
      var r := Reverse(s[1..]);
      forall i | 0 <= i < |r| ensures key(r[i]) > key(s[0]) {
        assert r[i] == s[|s| - 1 - i];
      }
      InsertOldest(s[0], r, key);
    }
  }

  // ---------------------------------------------------------------------
  // Keeping the entries newer than a version code
  // ---------------------------------------------------------------------

  /** The entries of `s` whose code is greater than `v`, in their order in `s`. */
  function NewerThan<T>(s: seq<T>, key: T -> int, v: int): seq<T> {
    if s == [] then []
    else NewerThan(s[..|s| - 1], key, v) + (if key(s[|s| - 1]) > v then [s[|s| - 1]] else [])
  }

  /** An entry is kept exactly when it is in `s` and newer than `v`. */
  lemma {:induction false} NewerThanMembers<T>(s: seq<T>, key: T -> int, v: int)
    ensures forall x :: x in NewerThan(s, key, v) ==> x in s && key(x) > v
    ensures forall x :: x in s && key(x) > v ==> x in NewerThan(s, key, v)
  {
    if s != [] {
      NewerThanMembers(s[..|s| - 1], key, v);
      assert s == s[..|s| - 1] + [s[|s| - 1]];
    }
  }

  /** Filtering a concatenation filters each part: the entries keep their order. */
  lemma {:induction false} NewerThanAppend<T>(a: seq<T>, b: seq<T>, key: T -> int, v: int)
    ensures NewerThan(a + b, key, v) == NewerThan(a, key, v) + NewerThan(b, key, v)
  {
    if b == [] {
      assert a + b == a;
    } else {
      NewerThanAppend(a, b[..|b| - 1], key, v);
      assert (a + b)[..|a + b| - 1] == a + b[..|b| - 1];
    }
  }

  /** A list whose entries are all newer than `v` is kept whole. */
  lemma {:induction false} NewerThanKeepsNewer<T>(s: seq<T>, key: T -> int, v: int)
    requires forall i :: 0 <= i < |s| ==> key(s[i]) > v
    ensures NewerThan(s, key, v) == s
  {
    if s != [] {
      NewerThanKeepsNewer(s[..|s| - 1], key, v);
      assert s == s[..|s| - 1] + [s[|s| - 1]];
    }
  }

  lemma {:induction false} WithKeyAppend<T>(a: seq<T>, b: seq<T>, key: T -> int, k: int)
    ensures WithKey(a + b, key, k) == WithKey(a, key, k) + WithKey(b, key, k)
  {
    if a == [] {
      assert a + b == b;
    } else {
      var h := if key(a[0]) == k then [a[0]] else [];
      assert (a + b)[0] == a[0] && (a + b)[1..] == a[1..] + b;
      assert WithKey(a + b, key, k) == h + WithKey(a[1..] + b, key, k);
      WithKeyAppend(a[1..], b, key, k);
      assert WithKey(a, key, k) == h + WithKey(a[1..], key, k);
      assert h + (WithKey(a[1..], key, k) + WithKey(b, key, k)) == (h + WithKey(a[1..], key, k)) + WithKey(b, key, k);
    }
  }

  /** Filtering keeps every entry of a code newer than `v` and none of an older one. */
  lemma {:induction false} WithKeyNewerThan<T>(s: seq<T>, key: T -> int, v: int, k: int)
    ensures WithKey(NewerThan(s, key, v), key, k) == if k > v then WithKey(s, key, k) else []
  {
    if s != [] {
      var init, x := s[..|s| - 1], s[|s| - 1];
      var tail := if key(x) > v then [x] else [];
      assert NewerThan(s, key, v) == NewerThan(init, key, v) + tail;
      WithKeyNewerThan(init, key, v, k);
      WithKeyAppend(NewerThan(init, key, v), tail, key, k);
      assert s == init + [x];
      WithKeyAppend(init, [x], key, k);
      WithKeyOne(x, key, k);
      if k > v {
        assert WithKey(tail, key, k) == WithKey([x], key, k);
      } else {
        assert WithKey(tail, key, k) == [];
      }
    }
  }

  lemma WithKeyOne<T>(x: T, key: T -> int, k: int)
    ensures WithKey([x], key, k) == if key(x) == k then [x] else []
  {
    assert [x][1..] == [];
  }

  /** Filtering a sorted list leaves it sorted. */
  lemma {:induction false} NewerThanSorted<T>(s: seq<T>, key: T -> int, v: int)
    requires SortedDesc(s, key)
    ensures SortedDesc(NewerThan(s, key, v), key)
  {
    if s != [] {
      var init, x := s[..|s| - 1], s[|s| - 1];
      assert SortedDesc(init, key);
      NewerThanSorted(init, key, v);
      if key(x) > v {
        var f := NewerThan(init, key, v);
        NewerThanMembers(init, key, v);
        forall i | 0 <= i < |f| ensures key(f[i]) >= key(x) {
          assert f[i] in f;
          assert f[i] in init;
          var j :| 0 <= j < |init| && init[j] == f[i];
          assert s[j] == init[j];
        }
      }
    }
  }

  /** Sorting and filtering by code commute: the newer part of the sorted list is the sorted newer part. */
  lemma SortDescNewerThan<T>(s: seq<T>, key: T -> int, v: int)
    ensures SortDesc(NewerThan(s, key, v), key) == NewerThan(SortDesc(s, key), key, v)
  {
    var sorted := SortDesc(s, key);
    SortDescCorrect(s, key);
    NewerThanSorted(sorted, key, v);
    forall k ensures WithKey(NewerThan(sorted, key, v), key, k) == WithKey(NewerThan(s, key, v), key, k) {
      WithKeyNewerThan(sorted, key, v, k);
      WithKeyNewerThan(s, key, v, k);
    }
    StableSortUnique(NewerThan(s, key, v), NewerThan(sorted, key, v), key);
  }
}
