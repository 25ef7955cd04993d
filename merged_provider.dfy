/**
 * MergedChangeLogProvider.merge: combines a master change log with a
 * localized one. The localized list is indexed by version code (a later entry
 * replaces an earlier one with the same code); every master entry is then
 * replaced by the localized entry with its code, when there is one, and the
 * list is sorted newest first with the stable `Collections.sort`.
 */
module MergedChangeLogProviders {
  import opened JavaLang
  import opened Android
  import opened ReleaseItems
  import opened VersionOrder

  /** The entry merge keeps for the master entry `m`: the localized one with its code, or `m` itself. */
  function Choose(index: map<int, Release>, m: Release): Release {
    if m.versionCode in index then index[m.versionCode] else m
  }

  /** The list merge builds before sorting: one chosen entry per master entry, in master order. */
  function Select(master: seq<Release>, index: map<int, Release>): seq<Release> {
    seq(|master|, i requires 0 <= i < |master| => Choose(index, master[i]))
  }

  /** merge(masterChangeLog, localizedChangeLog). */
  function MergeSpec(master: seq<Release>, localized: seq<Release>): seq<Release> {
    SortDesc(Select(master, IndexBy(localized, Code)), Code)
  }

  /** merge, as the source runs it: a SparseArray filled from the localized list, then one pass over the master list. */
  method Merge(masterChangeLog: seq<Release>, localizedChangeLog: seq<Release>) returns (mergedChangeLog: seq<Release>)
    ensures mergedChangeLog == MergeSpec(masterChangeLog, localizedChangeLog)
  {
    var localizedChangeLogMap := new SparseArray<Release>();
    for i := 0 to |localizedChangeLog|
      invariant localizedChangeLogMap.Valid()
      invariant localizedChangeLogMap.contents == IndexBy(localizedChangeLog[..i], Code)
    {
      var releaseItem := localizedChangeLog[i];
      localizedChangeLogMap.Put(releaseItem.versionCode, releaseItem);
      assert localizedChangeLog[..i + 1][..i] == localizedChangeLog[..i];
    }
    assert localizedChangeLog[..|localizedChangeLog|] == localizedChangeLog;
    var merged: seq<Release> := [];
    for i := 0 to |masterChangeLog|
      invariant |merged| == i
      invariant forall k :: 0 <= k < i ==> merged[k] == Choose(localizedChangeLogMap.contents, masterChangeLog[k])
    {
      var masterReleaseItem := masterChangeLog[i];
      var key := masterReleaseItem.versionCode;
      var release := localizedChangeLogMap.Get(key, masterReleaseItem);
      merged := merged + [release];
    }
    assert merged == Select(masterChangeLog, localizedChangeLogMap.contents);
    mergedChangeLog := SortDesc(merged, Code);
  }

  /**
   * The merged list is a stable sort of the selection: as long as the master
   * list, newest first, a permutation of the selected entries, and entries
   * with equal codes in master order.
   */
  lemma MergeSortsSelection(master: seq<Release>, localized: seq<Release>)
    ensures |MergeSpec(master, localized)| == |master|
    ensures SortedDesc(MergeSpec(master, localized), Code)
    ensures multiset(MergeSpec(master, localized)) == multiset(Select(master, IndexBy(localized, Code)))
    ensures forall k :: WithKey(MergeSpec(master, localized), Code, k) == WithKey(Select(master, IndexBy(localized, Code)), Code, k)
  {
    SortDescCorrect(Select(master, IndexBy(localized, Code)), Code);
  }

  /** Where the localized list has a master entry's code, its last entry with that code is merged in. */
  lemma LocalizedWins(master: seq<Release>, localized: seq<Release>, i: nat, j: nat)
    requires i < |master| && j < |localized| && localized[j].versionCode == master[i].versionCode
    requires forall j' :: j < j' < |localized| ==> localized[j'].versionCode != localized[j].versionCode
    ensures localized[j] in MergeSpec(master, localized)
  {
    var index := IndexBy(localized, Code);
    IndexByKeepsLast(localized, Code, j);
    assert Select(master, index)[i] == localized[j];
    MergeSortsSelection(master, localized);
    assert localized[j] in multiset(Select(master, index));
  }

  /** Where the localized list lacks a master entry's code, the master entry itself is merged in. */
  lemma MasterFallback(master: seq<Release>, localized: seq<Release>, i: nat)
    requires i < |master| && forall j :: 0 <= j < |localized| ==> localized[j].versionCode != master[i].versionCode
    ensures master[i] in MergeSpec(master, localized)
  {
    var index := IndexBy(localized, Code);
    assert master[i].versionCode !in index;
    assert Select(master, index)[i] == master[i];
    MergeSortsSelection(master, localized);
    assert master[i] in multiset(Select(master, index));
  }

  /** Every merged entry comes from the master list or carries a master entry's code: a localized-only version is dropped. */
  lemma LocalizedOnlyDropped(master: seq<Release>, localized: seq<Release>, x: Release)
    requires x in MergeSpec(master, localized)
    ensures exists i :: 0 <= i < |master| && master[i].versionCode == x.versionCode
    ensures x in master || x in localized
  {
    var index := IndexBy(localized, Code);
    var sel := Select(master, index);
    MergeSortsSelection(master, localized);
    assert x in multiset(sel);
    var i :| 0 <= i < |sel| && sel[i] == x;
    if master[i].versionCode in index {
      IndexByValues(localized, Code, master[i].versionCode);
    }
  }

  /** Master 1, 2, 3 with localized 1, 2 merge to 3 from master, then 2 and 1 localized. */
  lemma MergeExample(m1: Release, m2: Release, m3: Release, l1: Release, l2: Release)
    requires m1.versionCode == l1.versionCode == 1 && m2.versionCode == l2.versionCode == 2 && m3.versionCode == 3
    ensures MergeSpec([m1, m2, m3], [l1, l2]) == [m3, l2, l1]
  {
    var index := IndexBy([l1, l2], Code);
    assert [l1, l2][..1] == [l1] && [l1][..0] == [];
    assert IndexBy([l1], Code) == map[1 := l1];
    assert index == map[1 := l1, 2 := l2];
    var sel := Select([m1, m2, m3], index);
    assert sel == [l1, l2, m3];
    SortDescOfAscending(sel, Code);
  }

  // ---------------------------------------------------------------------
  // Merging the since-logs is filtering the merged log
  // ---------------------------------------------------------------------

  /** The two maps hold the same entries under every code newer than `v`. */
  ghost predicate AgreeAbove(a: map<int, Release>, b: map<int, Release>, v: int) {
    forall k :: k > v ==> (k in a <==> k in b) && (k in a ==> a[k] == b[k])
  }

  lemma IndexByAppendOne(s: seq<Release>, x: Release)
    ensures IndexBy(s + [x], Code) == IndexBy(s, Code)[x.versionCode := x]
  {
    assert (s + [x])[..|s|] == s;
  }

  /** Indexing the newer entries of a list agrees with indexing the whole list on every newer code. */
  lemma {:induction false} IndexByNewerThan(localized: seq<Release>, v: int)
    ensures AgreeAbove(IndexBy(NewerThan(localized, Code, v), Code), IndexBy(localized, Code), v)
  {
    if localized != [] {
      var init, x := localized[..|localized| - 1], localized[|localized| - 1];
      IndexByNewerThan(init, v);
      assert localized == init + [x];
      IndexByAppendOne(init, x);
      if x.versionCode > v {
        IndexByAppendOne(NewerThan(init, Code, v), x);
      } else {
        assert NewerThan(localized, Code, v) == NewerThan(init, Code, v);
      }
    }
  }

  lemma SelectAppend(a: seq<Release>, b: seq<Release>, index: map<int, Release>)
    ensures Select(a + b, index) == Select(a, index) + Select(b, index)
  {
    assert |Select(a + b, index)| == |Select(a, index) + Select(b, index)|;
    forall i | 0 <= i < |a + b| ensures Select(a + b, index)[i] == (Select(a, index) + Select(b, index))[i] {
      if i < |a| {
        assert (a + b)[i] == a[i];
      } else {
        assert (a + b)[i] == b[i - |a|];
      }
    }
  }

  /** Choosing keeps the code: an index entry sits under its own code. */
  predicate KeyedByCode(index: map<int, Release>) {
    forall k :: k in index ==> index[k].versionCode == k
  }

  /** Selecting for the newer master entries is selecting for all of them and keeping the newer results. */
  lemma {:induction false} SelectNewerThan(master: seq<Release>, index: map<int, Release>, newer: map<int, Release>, v: int)
    requires KeyedByCode(index) && AgreeAbove(newer, index, v)
    ensures Select(NewerThan(master, Code, v), newer) == NewerThan(Select(master, index), Code, v)
  {
    if master == [] {
      assert Select(master, index) == [];
    } else {
      var init, m := master[..|master| - 1], master[|master| - 1];
      SelectNewerThan(init, index, newer, v);
      assert master == init + [m];
      SelectAppend(init, [m], index);
      var kept := if m.versionCode > v then [m] else [];
      SelectAppend(NewerThan(init, Code, v), kept, newer);
      assert Select(master, index) == Select(init, index) + [Choose(index, m)];
      assert Choose(index, m).versionCode == m.versionCode;
      assert NewerThan(Select(master, index), Code, v)
             == NewerThan(Select(init, index), Code, v) + (if m.versionCode > v then [Choose(index, m)] else []);
      if m.versionCode > v {
        assert Select(kept, newer) == [Choose(index, m)];
      } else {
        assert Select(kept, newer) == [];
      }
    }
  }

  /**
   * getChangeLogSince(v) of a merged provider is the newer part of its
   * getChangeLog, whenever each of the two providers' since-logs is the newer
   * part of its own full log.
   */
  lemma MergeNewerThan(master: seq<Release>, localized: seq<Release>, v: int)
    ensures MergeSpec(NewerThan(master, Code, v), NewerThan(localized, Code, v))
            == NewerThan(MergeSpec(master, localized), Code, v)
  {
    var index := IndexBy(localized, Code);
    IndexByNewerThan(localized, v);
    SelectNewerThan(master, index, IndexBy(NewerThan(localized, Code, v), Code), v);
    SortDescNewerThan(Select(master, index), Code, v);
  }
}
