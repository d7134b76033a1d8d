/** What the ranking steps promise (downloader.py:119-151,
    json-extractor.py:18-50): the sorted table is ordered by the version key,
    stable, and numbered 1..N; every row receives the rank of the last table
    entry carrying its version, so equal versions share a rank, distinct
    versions get the ranks 1..N exactly once, and a smaller key means a
    smaller rank. */
module Ranking {
  import opened Text
  import opened Sorting
  import opened Versions
  import opened Ordering
  import opened Catalog

  /** The entries with their rank cleared, as they were before numbering. */
  function Unranked(split: seq<Entry>): seq<Entry> {
    seq(|split|, k requires 0 <= k < |split| => split[k].(rank := 0))
  }

  /** What parsing leaves for the ranking steps: one unranked entry per
      row carrying the row's version, and equal versions parsed alike. */
  ghost predicate ParsedFrom(rows: seq<Row>, entries: seq<Entry>) {
    && |entries| == |rows|
    && (forall i :: 0 <= i < |rows| ==> entries[i].raw == rows[i].versionNumber && entries[i].rank == 0)
    && (forall i, j :: 0 <= i < |entries| && 0 <= j < |entries| && entries[i].raw == entries[j].raw ==>
          entries[i] == entries[j])
  }

  /** Parsing every row (lines 119-129) gives such entries. */
  lemma {:induction false} ParsedEntries(rows: seq<Row>, entries: seq<Entry>)
    requires TryAll(rows, ParseRow) == Ok(entries)
    ensures ParsedFrom(rows, entries)
    ensures forall i :: 0 <= i < |rows| ==> ParseVersion(rows[i].versionNumber) == Ok(entries[i])
  {
    forall i, j | 0 <= i < |entries| && 0 <= j < |entries| && entries[i].raw == entries[j].raw
      ensures entries[i] == entries[j]
    {
      assert ParseRow(rows[i]) == Ok(entries[i]) && ParseRow(rows[j]) == Ok(entries[j]);
    }
  }

  /** The sorted and numbered table (lines 133-144): ordered by the key,
      numbered 1..N, and, ranks aside, the input entries rearranged so that
      entries with equal keys keep their input order. */
  lemma {:induction false} RankTableProperties(entries: seq<Entry>)
    requires forall i :: 0 <= i < |entries| ==> entries[i].rank == 0
    ensures var t := RankTable(entries);
      && |t| == |entries|
      && (forall k :: 0 <= k < |t| ==> t[k].rank == k + 1)
      && SortedBy(t, EntryKey, KeyLe)
      && SameKeyFilters(Unranked(t), entries, EntryKey)
      && multiset(Unranked(t)) == multiset(entries)
  {
    var s := SortBy(entries, EntryKey, KeyLe);
    var t := RankTable(entries);
    KeyLeIsTotalOrder();
    SortByProperties(entries, EntryKey, KeyLe);
    SameKeyFiltersMultiset(s, entries, EntryKey);
    forall k | 0 <= k < |s| ensures s[k].rank == 0 {
      assert s[k] in multiset(s);
    }
    assert Unranked(t) == s;
  }

  /** Every table position holds, rank aside, one of the input entries. */
  lemma {:induction false} TableEntryOrigin(rows: seq<Row>, entries: seq<Entry>, j: nat) returns (m: nat)
    requires ParsedFrom(rows, entries) && j < |RankTable(entries)|
    ensures m < |rows| && entries[m] == Unranked(RankTable(entries))[j]
  {
    RankTableProperties(entries);
    var t := RankTable(entries);
    assert Unranked(t)[j] in multiset(Unranked(t));
    m :| 0 <= m < |entries| && entries[m] == Unranked(t)[j];
  }

  /** The last position of the table holding version v. */
  ghost predicate LastPosition(t: seq<Entry>, v: string, j: nat) {
    j < |t| && t[j].raw == v && forall q :: j < q < |t| ==> t[q].raw != v
  }

  /** The nested loop of lines 146-149 has no break: the last match wins. */
  lemma {:induction false} LastRankIsLastMatch(split: seq<Entry>, v: string, current: nat, j: nat)
    requires LastPosition(split, v, j)
    ensures LastRank(split, v, current) == split[j].rank
  {
    if j < |split| - 1 {
      LastRankIsLastMatch(split[..|split| - 1], v, current, j);
    }
  }

  /** A row whose version is nowhere in the table keeps the rank it had. */
  lemma {:induction false} LastRankWithoutMatch(split: seq<Entry>, v: string, current: nat)
    requires forall q :: 0 <= q < |split| ==> split[q].raw != v
    ensures LastRank(split, v, current) == current
  {
    if split != [] {
      LastRankWithoutMatch(split[..|split| - 1], v, current);
    }
  }

  /** A version present at position m has a last position, at or after m. */
  lemma {:induction false} LastPositionExists(t: seq<Entry>, v: string, m: nat) returns (j: nat)
    requires m < |t| && t[m].raw == v
    ensures m <= j && LastPosition(t, v, j)
    decreases |t| - m
  {
    if forall q :: m < q < |t| ==> t[q].raw != v {
      j := m;
    } else {
      var q :| m < q < |t| && t[q].raw == v;
      j := LastPositionExists(t, v, q);
    }
  }

  /** The map-back loop (lines 146-149) for one row: the row keeps its
      other columns and takes rank j + 1, where j is the last table position
      holding its version; so its rank lies in 1..N. */
  lemma {:induction false} RowRankAt(rows: seq<Row>, entries: seq<Entry>, i: nat)
    requires ParsedFrom(rows, entries) && i < |rows|
    ensures var t := RankTable(entries);
      var row := MapBack(rows, t)[i];
      && |t| == |rows|
      && row == rows[i].(rank := row.rank)
      && 1 <= row.rank <= |rows|
      && LastPosition(t, rows[i].versionNumber, row.rank - 1)
  {
    RankTableProperties(entries);
    var t := RankTable(entries);
    assert entries[i] in multiset(Unranked(t));
    var m :| 0 <= m < |t| && Unranked(t)[m] == entries[i];
    var j := LastPositionExists(t, rows[i].versionNumber, m);
    LastRankIsLastMatch(t, rows[i].versionNumber, rows[i].rank, j);
  }

  /** The map-back loop for all rows. */
  lemma {:induction false} RowRanks(rows: seq<Row>, entries: seq<Entry>)
    requires ParsedFrom(rows, entries)
    ensures var t := RankTable(entries);
      var mapped := MapBack(rows, t);
      && |mapped| == |rows|
      && forall i :: 0 <= i < |rows| ==>
        && mapped[i] == rows[i].(rank := mapped[i].rank)
        && 1 <= mapped[i].rank <= |rows|
        && LastPosition(t, rows[i].versionNumber, mapped[i].rank - 1)
  {
    forall i | 0 <= i < |rows|
      ensures var t := RankTable(entries);
        var mapped := MapBack(rows, t);
        && mapped[i] == rows[i].(rank := mapped[i].rank)
        && 1 <= mapped[i].rank <= |rows|
        && LastPosition(t, rows[i].versionNumber, mapped[i].rank - 1)
    {
      RowRankAt(rows, entries, i);
    }
  }

  lemma {:induction false} LastPositionUnique(t: seq<Entry>, v: string, j: nat, j': nat)
    requires LastPosition(t, v, j) && LastPosition(t, v, j')
    ensures j == j'
  {
  }

  /** Rows with identical versions share one rank. */
  lemma {:induction false} EqualVersionsShareRank(rows: seq<Row>, entries: seq<Entry>, i: nat, i': nat)
    requires ParsedFrom(rows, entries)
    requires i < |rows| && i' < |rows| && rows[i].versionNumber == rows[i'].versionNumber
    ensures MapBack(rows, RankTable(entries))[i].rank == MapBack(rows, RankTable(entries))[i'].rank
  {
    RowRankAt(rows, entries, i);
    RowRankAt(rows, entries, i');
    var t := RankTable(entries);
    var mapped := MapBack(rows, t);
    var r, r' := mapped[i].rank, mapped[i'].rank;
    var v := rows[i].versionNumber;
    assert LastPosition(t, v, r - 1);
    assert LastPosition(t, v, r' - 1);
    LastPositionUnique(t, v, r - 1, r' - 1);
  }

  /** The table entry a row's rank points at carries the row's key. */
  lemma {:induction false} RankedEntryOfRow(rows: seq<Row>, entries: seq<Entry>, i: nat)
    requires ParsedFrom(rows, entries) && i < |rows|
    ensures var t := RankTable(entries);
      var r := MapBack(rows, t)[i].rank;
      1 <= r <= |t| && t[r - 1].key == entries[i].key
  {
    RowRankAt(rows, entries, i);
    var t := RankTable(entries);
    var j := MapBack(rows, t)[i].rank - 1;
    var m := TableEntryOrigin(rows, entries, j);
    assert entries[m].raw == entries[i].raw;
  }

  /** Ranks follow the version order: a smaller key gives a smaller rank, and
      a smaller rank means a key no greater. */
  lemma {:induction false} RanksFollowKeys(rows: seq<Row>, entries: seq<Entry>, i: nat, i': nat)
    requires ParsedFrom(rows, entries)
    requires i < |rows| && i' < |rows|
    ensures var mapped := MapBack(rows, RankTable(entries));
      && (KeyLess(entries[i].key, entries[i'].key) ==> mapped[i].rank < mapped[i'].rank)
      && (mapped[i].rank < mapped[i'].rank ==> KeyLe(entries[i].key, entries[i'].key))
  {
    RankedEntryOfRow(rows, entries, i);
    RankedEntryOfRow(rows, entries, i');
    RankTableProperties(entries);
    KeyLeIsTotalOrder();
    var t := RankTable(entries);
    var mapped := MapBack(rows, t);
    var j, j' := mapped[i].rank - 1, mapped[i'].rank - 1;
    var k, k' := entries[i].key, entries[i'].key;
    assert j' <= j ==> KeyLe(k', k) by {
      if j' < j {
        assert KeyLe(EntryKey(t[j']), EntryKey(t[j]));
      }
    }
    assert j < j' ==> KeyLe(k, k') by {
      if j < j' {
        assert KeyLe(EntryKey(t[j]), EntryKey(t[j']));
      }
    }
  }

  /** After line 151 the rows are in non-decreasing rank order, and rows of
      equal rank keep their input order: a stable rearrangement of the
      mapped rows. */
  lemma {:induction false} RankedRowsOrdered(rows: seq<Row>, entries: seq<Entry>)
    ensures var mapped := MapBack(rows, RankTable(entries));
      var ranked := RankRows(rows, entries);
      && SortedBy(ranked, RowRank, NatLe)
      && SameKeyFilters(ranked, mapped, RowRank)
      && multiset(ranked) == multiset(mapped)
  {
    var mapped := MapBack(rows, RankTable(entries));
    NatLeIsTotalOrder();
    SortByProperties(mapped, RowRank, NatLe);
    SameKeyFiltersMultiset(RankRows(rows, entries), mapped, RowRank);
  }

  // ---- distinct versions ----

  predicate Distinct<T(==)>(s: seq<T>) {
    forall i, j :: 0 <= i < j < |s| ==> s[i] != s[j]
  }

  lemma {:induction false} DistinctCount<T>(s: seq<T>, x: T)
    requires Distinct(s)
    ensures multiset(s)[x] <= 1
  {
    if s != [] {
      var s' := s[..|s| - 1];
      assert s == s' + [s[|s| - 1]];
      DistinctCount(s', x);
      if s[|s| - 1] == x {
        assert x !in s';
      }
    }
  }

  lemma {:induction false} RepeatCount<T>(s: seq<T>, i: nat, j: nat)
    requires i < j < |s| && s[i] == s[j]
    ensures multiset(s)[s[i]] >= 2
  {
    assert s == s[..i] + [s[i]] + s[i + 1..j] + [s[j]] + s[j + 1..];
  }

  /** A rearrangement of a sequence without repeats has none either. */
  lemma {:induction false} DistinctRearranged<T>(s: seq<T>, t: seq<T>)
    requires Distinct(s) && multiset(s) == multiset(t)
    ensures Distinct(t)
  {
    forall i, j | 0 <= i < j < |t| ensures t[i] != t[j] {
      if t[i] == t[j] {
        RepeatCount(t, i, j);
        DistinctCount(s, t[i]);
      }
    }
  }

  function VersionColumn(rows: seq<Row>): seq<string> {
    seq(|rows|, i requires 0 <= i < |rows| => rows[i].versionNumber)
  }

  function RankColumn(rows: seq<Row>): seq<nat> {
    seq(|rows|, i requires 0 <= i < |rows| => rows[i].rank)
  }

  /** With distinct versions every table position holds a different version. */
  lemma {:induction false} DistinctTableVersions(rows: seq<Row>, entries: seq<Entry>)
    requires ParsedFrom(rows, entries) && Distinct(VersionColumn(rows))
    ensures var t := RankTable(entries);
      forall j, j' :: 0 <= j < j' < |t| ==> t[j].raw != t[j'].raw
  {
    RankTableProperties(entries);
    var t := RankTable(entries);
    assert Distinct(entries) by {
      forall i, i' | 0 <= i < i' < |entries| ensures entries[i] != entries[i'] {
        assert VersionColumn(rows)[i] != VersionColumn(rows)[i'];
      }
    }
    DistinctRearranged(entries, Unranked(t));
    forall j, j' | 0 <= j < j' < |t| ensures t[j].raw != t[j'].raw {
      var m := TableEntryOrigin(rows, entries, j);
      var m' := TableEntryOrigin(rows, entries, j');
      assert Unranked(t)[j] != Unranked(t)[j'];
    }
  }

  /** With distinct versions the row ranks are a permutation of 1..N: no two
      rows share a rank, and every rank from 1 to N is given to some row. */
  lemma {:induction false} DistinctVersionsRankPermutation(rows: seq<Row>, entries: seq<Entry>)
    requires ParsedFrom(rows, entries) && Distinct(VersionColumn(rows))
    ensures var mapped := MapBack(rows, RankTable(entries));
      && (forall i, i' :: 0 <= i < i' < |rows| ==> mapped[i].rank != mapped[i'].rank)
      && (forall k :: 1 <= k <= |rows| ==> k in RankColumn(mapped))
  {
    RowRanks(rows, entries);
    RankTableProperties(entries);
    DistinctTableVersions(rows, entries);
    var t := RankTable(entries);
    var mapped := MapBack(rows, t);
    forall i, i' | 0 <= i < i' < |rows| ensures mapped[i].rank != mapped[i'].rank {
      assert VersionColumn(rows)[i] != VersionColumn(rows)[i'];
    }
    forall k | 1 <= k <= |rows| ensures k in RankColumn(mapped) {
      var i := TableEntryOrigin(rows, entries, k - 1);
      assert LastPosition(t, rows[i].versionNumber, k - 1);
      LastPositionUnique(t, rows[i].versionNumber, k - 1, mapped[i].rank - 1);
      assert RankColumn(mapped)[i] == k;
    }
  }
}
