/** What the whole block promises about its outcome: when it succeeds,
    which error it reports otherwise, and which rows it emits in which
    order. */
module Properties {
  import opened Sorting
  import opened Lists
  import opened Versions
  import opened Ordering
  import opened Catalog
  import opened Ranking

  /** A parsed version the classification and the filter accept: it has a
      family (line 156), a third field (line 157) and float() reads the
      family (line 164). */
  predicate Classifiable(version: string) {
    && FamilyOf(version).Ok?
    && ReleaseTypeOf(version).Ok?
    && FamilyValue(FamilyOf(version).value).Ok?
  }

  /** A version the whole block goes through without aborting. */
  predicate Acceptable(version: string) {
    ParseVersion(version).Ok? && Classifiable(version)
  }

  /** The classification of a row does not look at, and does not change,
      its rank. */
  lemma ClassifyIgnoresRank(row: Row, n: nat)
    ensures ClassifyRow(row.(rank := n)).Ok? == ClassifyRow(row).Ok?
    ensures ClassifyRow(row).Ok? ==> ClassifyRow(row.(rank := n)).value == ClassifyRow(row).value.(rank := n)
    ensures ClassifyRow(row).Ok? ==>
      && ClassifyRow(row).value.family == FamilyOf(row.versionNumber).value
      && ClassifyRow(row).value == row.(family := ClassifyRow(row).value.family,
                                        releaseType := ClassifyRow(row).value.releaseType)
  {
  }

  /** Lines 155-165 go through exactly when every row's version can be
      classified and its family read. */
  lemma {:induction false} ClassifyAndFilterOkIff(ranked: seq<Row>)
    ensures ClassifyAndFilter(ranked).Ok? <==>
      forall j :: 0 <= j < |ranked| ==> Classifiable(ranked[j].versionNumber)
  {
    TryAllOkIff(ranked, ClassifyRow);
    if c :| TryAll(ranked, ClassifyRow) == Ok(c) {
      TryAllOkIff(c, RowFamilyValue);
      forall j | 0 <= j < |ranked|
        ensures Classifiable(ranked[j].versionNumber) <==> RowFamilyValue(c[j]).Ok?
      {
        assert ClassifyRow(ranked[j]) == Ok(c[j]);
      }
    } else {
      forall j | 0 <= j < |ranked| && Classifiable(ranked[j].versionNumber)
        ensures ClassifyRow(ranked[j]).Ok?
      {
      }
    }
  }

  /** Two sequences holding the same rows agree on whether all of them are
      classifiable. */
  lemma SameRowsClassifiable(s: seq<Row>, t: seq<Row>)
    requires multiset(s) == multiset(t)
    ensures (forall j :: 0 <= j < |s| ==> Classifiable(s[j].versionNumber)) <==>
            (forall i :: 0 <= i < |t| ==> Classifiable(t[i].versionNumber))
  {
    forall j | 0 <= j < |s| && (forall i :: 0 <= i < |t| ==> Classifiable(t[i].versionNumber))
      ensures Classifiable(s[j].versionNumber)
    {
      assert s[j] in multiset(t);
    }
    forall i | 0 <= i < |t| && (forall j :: 0 <= j < |s| ==> Classifiable(s[j].versionNumber))
      ensures Classifiable(t[i].versionNumber)
    {
      assert t[i] in multiset(s);
    }
  }

  /** The block produces a table exactly when every release's version
      parses, has a family and a third field, and its family reads as a
      number; the order of the steps does not matter for this. */
  lemma {:induction false} CatalogSucceedsIff(releases: seq<Release>)
    ensures CatalogSpec(releases).Ok? <==>
      forall i :: 0 <= i < |releases| ==> Acceptable(releases[i].versionNumber)
  {
    var rows := BlankRows(releases);
    TryAllOkIff(rows, ParseRow);
    if entries :| TryAll(rows, ParseRow) == Ok(entries) {
      ParsedCatalogOkIff(releases, entries);
    } else {
      var i :| 0 <= i < |rows| && ParseRow(rows[i]).Err?;
      assert !Acceptable(releases[i].versionNumber);
    }
  }

  /** Once every version has parsed, the rest of the block goes through
      exactly when every version is classifiable. */
  lemma {:induction false} ParsedCatalogOkIff(releases: seq<Release>, entries: seq<Entry>)
    requires TryAll(BlankRows(releases), ParseRow) == Ok(entries)
    ensures CatalogSpec(releases).Ok? <==>
      forall i :: 0 <= i < |releases| ==> Acceptable(releases[i].versionNumber)
  {
    var rows := BlankRows(releases);
    ParsedEntries(rows, entries);
    RowRanks(rows, entries);
    RankedRowsOrdered(rows, entries);
    var mapped := MapBack(rows, RankTable(entries));
    var ranked := RankRows(rows, entries);
    assert CatalogSpec(releases) == ClassifyAndFilter(ranked);
    ClassifyAndFilterOkIff(ranked);
    SameRowsClassifiable(ranked, mapped);
    forall i | 0 <= i < |releases|
      ensures Classifiable(mapped[i].versionNumber) <==> Acceptable(releases[i].versionNumber)
    {
      assert ParseRow(rows[i]).Ok?;
    }
  }

  /** The first release, in input order, whose version does not parse is
      the one reported (the conversion loop of lines 126-129 stops there). */
  lemma {:induction false} FirstMalformedVersion(releases: seq<Release>, i: nat)
    requires i < |releases| && ParseVersion(releases[i].versionNumber).Err?
    requires forall j :: 0 <= j < i ==> ParseVersion(releases[j].versionNumber).Ok?
    ensures CatalogSpec(releases) == Err(MalformedVersion(releases[i].versionNumber))
  {
    var rows := BlankRows(releases);
    TryAllOkIff(rows[..i], ParseRow);
    TryAllFailsAt(rows, i, ParseRow);
  }

  /** A row with its family and type filled in; a row that cannot be
      classified is left as it is (the block never emits one). */
  function Finished(row: Row): Row {
    match ClassifyRow(row)
    case Ok(r) => r
    case Err(_) => row
  }

  /** The rows in input order, each with its final rank, family and type. */
  function InputOrder(rows: seq<Row>, entries: seq<Entry>): seq<Row> {
    Map(MapBack(rows, RankTable(entries)), Finished)
  }

  /** The emitted table is the input rows, ranked and classified, cut down
      to the supported families and then stably sorted by rank: rows of
      equal rank appear in input order. */
  lemma {:induction false} CatalogOutput(releases: seq<Release>, entries: seq<Entry>)
    requires TryAll(BlankRows(releases), ParseRow) == Ok(entries)
    requires CatalogSpec(releases).Ok?
    ensures CatalogSpec(releases).value ==
      SortBy(Filter(InputOrder(BlankRows(releases), entries), Supported), RowRank, NatLe)
  {
    var rows := BlankRows(releases);
    var mapped := MapBack(rows, RankTable(entries));
    var ranked := RankRows(rows, entries);
    RankedRowsOrdered(rows, entries);
    var c := TryAll(ranked, ClassifyRow).value;
    assert c == Map(ranked, Finished) by {
      forall j | 0 <= j < |c| ensures c[j] == Finished(ranked[j]) {
        assert ClassifyRow(ranked[j]) == Ok(c[j]);
      }
    }
    var out := Filter(c, Supported);
    assert CatalogSpec(releases).value == out;
    assert forall x :: RowRank(Finished(x)) == RowRank(x);
    MapKeepsSorted(ranked, Finished, RowRank, NatLe);
    FilterKeepsSorted(c, Supported, RowRank, NatLe);
    var reference := Filter(Map(mapped, Finished), Supported);
    forall k ensures KeyFilter(out, RowRank, k) == KeyFilter(reference, RowRank, k) {
      KeyFilterOfFilter(c, Supported, RowRank, k);
      KeyFilterMap(ranked, Finished, RowRank, k);
      KeyFilterMap(mapped, Finished, RowRank, k);
      KeyFilterOfFilter(Map(mapped, Finished), Supported, RowRank, k);
      assert KeyFilter(ranked, RowRank, k) == KeyFilter(mapped, RowRank, k);
    }
    NatLeIsTotalOrder();
    IsSortBy(reference, out, RowRank, NatLe);
  }

  /** One input row once ranked and classified: the release's row with
      its family and type, and the rank of its version. */
  lemma {:induction false} FinishedRow(releases: seq<Release>, entries: seq<Entry>, i: nat)
    requires ParsedFrom(BlankRows(releases), entries)
    requires i < |releases| && Acceptable(releases[i].versionNumber)
    ensures ClassifyRow(BlankRow(releases[i])).Ok?
    ensures var row := InputOrder(BlankRows(releases), entries)[i];
      && row == ClassifyRow(BlankRow(releases[i])).value.(rank := row.rank)
      && 1 <= row.rank <= |releases|
  {
    var rows := BlankRows(releases);
    RowRankAt(rows, entries, i);
    var n := MapBack(rows, RankTable(entries))[i].rank;
    var blank := BlankRow(releases[i]);
    assert rows[i] == blank;
    assert InputOrder(rows, entries)[i] == Finished(blank.(rank := n));
    FinishedOfRanked(blank, n);
  }

  lemma FinishedOfRanked(row: Row, n: nat)
    requires Classifiable(row.versionNumber)
    ensures ClassifyRow(row).Ok?
    ensures Finished(row.(rank := n)) == ClassifyRow(row).value.(rank := n)
  {
  }

  /** The emitted rows are the supported input rows, rearranged. */
  lemma {:induction false} OutputMultiset(releases: seq<Release>, entries: seq<Entry>)
    requires TryAll(BlankRows(releases), ParseRow) == Ok(entries)
    requires CatalogSpec(releases).Ok?
    ensures multiset(CatalogSpec(releases).value) ==
      multiset(Filter(InputOrder(BlankRows(releases), entries), Supported))
    ensures SortedBy(CatalogSpec(releases).value, RowRank, NatLe)
  {
    var reference := Filter(InputOrder(BlankRows(releases), entries), Supported);
    CatalogOutput(releases, entries);
    NatLeIsTotalOrder();
    SortByProperties(reference, RowRank, NatLe);
    SameKeyFiltersMultiset(CatalogSpec(releases).value, reference, RowRank);
  }

  /** A supported row in input order comes from one release. */
  lemma {:induction false} KeptRowOrigin(releases: seq<Release>, entries: seq<Entry>, r: Row)
    requires ParsedFrom(BlankRows(releases), entries)
    requires forall i :: 0 <= i < |releases| ==> Acceptable(releases[i].versionNumber)
    requires r in Filter(InputOrder(BlankRows(releases), entries), Supported)
    ensures Supported(r) && 1 <= r.rank <= |releases|
    ensures exists i :: 0 <= i < |releases| && ClassifyRow(BlankRow(releases[i])) == Ok(r.(rank := 0))
  {
    var done := InputOrder(BlankRows(releases), entries);
    FilterMembers(done, Supported, r);
    var i :| 0 <= i < |done| && done[i] == r;
    FinishedRow(releases, entries, i);
  }

  /** A release whose classified row is supported survives the filter. */
  lemma {:induction false} SupportedRowKept(releases: seq<Release>, entries: seq<Entry>, i: nat)
    requires ParsedFrom(BlankRows(releases), entries)
    requires i < |releases| && Acceptable(releases[i].versionNumber)
    requires Supported(ClassifyRow(BlankRow(releases[i])).value)
    ensures var done := InputOrder(BlankRows(releases), entries);
      && done[i] in Filter(done, Supported)
      && done[i].(rank := 0) == ClassifyRow(BlankRow(releases[i])).value
  {
    var done := InputOrder(BlankRows(releases), entries);
    FinishedRow(releases, entries, i);
    FilterMembers(done, Supported, done[i]);
  }

  /** What the emitted rows are: in rank order; each a supported input
      release, classified, with its file name and checksum carried over and
      a rank in 1..N; and every input release of a supported family is
      emitted. */
  lemma {:induction false} OutputRows(releases: seq<Release>, out: seq<Row>)
    requires CatalogSpec(releases) == Ok(out)
    ensures SortedBy(out, RowRank, NatLe)
    ensures forall r :: r in out ==>
      && Supported(r)
      && 1 <= r.rank <= |releases|
      && exists i :: 0 <= i < |releases| && ClassifyRow(BlankRow(releases[i])) == Ok(r.(rank := 0))
    ensures forall i :: 0 <= i < |releases| ==>
      (ClassifyRow(BlankRow(releases[i])).Ok? && Supported(ClassifyRow(BlankRow(releases[i])).value) ==>
        exists r :: r in out && r.(rank := 0) == ClassifyRow(BlankRow(releases[i])).value)
  {
    var entries := TryAll(BlankRows(releases), ParseRow).value;
    var kept := Filter(InputOrder(BlankRows(releases), entries), Supported);
    OutputMultiset(releases, entries);
    ParsedEntries(BlankRows(releases), entries);
    CatalogSucceedsIff(releases);
    forall r | r in out
      ensures Supported(r) && 1 <= r.rank <= |releases|
      ensures exists i :: 0 <= i < |releases| && ClassifyRow(BlankRow(releases[i])) == Ok(r.(rank := 0))
    {
      assert r in multiset(kept);
      KeptRowOrigin(releases, entries, r);
    }
    forall i | 0 <= i < |releases| && ClassifyRow(BlankRow(releases[i])).Ok? &&
      Supported(ClassifyRow(BlankRow(releases[i])).value)
      ensures exists r :: r in out && r.(rank := 0) == ClassifyRow(BlankRow(releases[i])).value
    {
      SupportedRowKept(releases, entries, i);
      var done := InputOrder(BlankRows(releases), entries);
      assert done[i] in multiset(out);
    }
  }

  // ---- input order ----

  /** No two releases carry versions that parse to the same key. */
  predicate DistinctKeys(releases: seq<Release>) {
    forall i, j ::
      (0 <= i < j < |releases| &&
       ParseVersion(releases[i].versionNumber).Ok? && ParseVersion(releases[j].versionNumber).Ok?) ==>
        ParseVersion(releases[i].versionNumber).value.key != ParseVersion(releases[j].versionNumber).value.key
  }

  /** A release's parsed entry; a version that does not parse gets a
      placeholder (the block never ranks one). */
  function EntryOf(r: Release): Entry {
    match ParseVersion(r.versionNumber)
    case Ok(e) => e
    case Err(_) => Entry(VersionKey(0, 0, 0, ""), r.versionNumber, 0)
  }

  /** A release once ranked against table and classified. */
  function Completed(table: seq<Entry>): Release -> Row {
    r => Finished(BlankRow(r).(rank := LastRank(table, r.versionNumber, 0)))
  }

  /** The parsed entries are the releases' versions parsed one by one. */
  lemma ParsedReleases(releases: seq<Release>, entries: seq<Entry>)
    requires TryAll(BlankRows(releases), ParseRow) == Ok(entries)
    ensures entries == Map(releases, EntryOf)
    ensures forall i :: 0 <= i < |releases| ==> ParseVersion(releases[i].versionNumber) == Ok(entries[i])
  {
    var rows := BlankRows(releases);
    ParsedEntries(rows, entries);
    forall i | 0 <= i < |releases|
      ensures ParseVersion(releases[i].versionNumber) == Ok(entries[i])
      ensures entries[i] == Map(releases, EntryOf)[i]
    {
      assert rows[i].versionNumber == releases[i].versionNumber;
      assert ParseRow(rows[i]) == Ok(entries[i]);
      assert EntryOf(releases[i]) == entries[i];
    }
  }

  /** Every release of a rearrangement of an acceptable input is acceptable. */
  lemma ReorderedAcceptable(releases: seq<Release>, reordered: seq<Release>)
    requires multiset(reordered) == multiset(releases) && CatalogSpec(releases).Ok?
    ensures CatalogSpec(reordered).Ok?
  {
    CatalogSucceedsIff(releases);
    CatalogSucceedsIff(reordered);
    forall i | 0 <= i < |reordered| ensures Acceptable(reordered[i].versionNumber) {
      assert reordered[i] in multiset(releases);
    }
  }

  /** With distinct keys the ranked table (lines 133-144) does not depend on
      the input order. */
  lemma RankTableOfRearrangement(releases: seq<Release>, reordered: seq<Release>,
                                 entries: seq<Entry>, reentries: seq<Entry>)
    requires multiset(reordered) == multiset(releases) && DistinctKeys(releases)
    requires TryAll(BlankRows(releases), ParseRow) == Ok(entries)
    requires TryAll(BlankRows(reordered), ParseRow) == Ok(reentries)
    ensures RankTable(reentries) == RankTable(entries)
  {
    ParsedReleases(releases, entries);
    ParsedReleases(reordered, reentries);
    MapRearranged(releases, reordered, EntryOf);
    forall i, j | 0 <= i < j < |entries| ensures EntryKey(entries[i]) != EntryKey(entries[j]) {
      assert ParseVersion(releases[i].versionNumber) == Ok(entries[i]);
      assert ParseVersion(releases[j].versionNumber) == Ok(entries[j]);
    }
    UniqueKeysOfDistinct(entries, EntryKey);
    KeyLeIsTotalOrder();
    SortByOfRearrangement(entries, reentries, EntryKey, KeyLe);
  }

  lemma InputOrderOfReleases(releases: seq<Release>, entries: seq<Entry>)
    ensures InputOrder(BlankRows(releases), entries) == Map(releases, Completed(RankTable(entries)))
  {
  }

  /** Distinct keys mean distinct versions. */
  lemma DistinctVersions(releases: seq<Release>, entries: seq<Entry>)
    requires TryAll(BlankRows(releases), ParseRow) == Ok(entries) && DistinctKeys(releases)
    ensures Distinct(VersionColumn(BlankRows(releases)))
  {
    var rows := BlankRows(releases);
    ParsedReleases(releases, entries);
    forall i, j | 0 <= i < j < |rows| ensures VersionColumn(rows)[i] != VersionColumn(rows)[j] {
      assert ParseVersion(releases[i].versionNumber) == Ok(entries[i]);
      assert ParseVersion(releases[j].versionNumber) == Ok(entries[j]);
    }
  }

  /** With distinct keys no two rows in input order share a rank. */
  lemma InputOrderUniqueRanks(releases: seq<Release>, entries: seq<Entry>)
    requires TryAll(BlankRows(releases), ParseRow) == Ok(entries) && DistinctKeys(releases)
    ensures UniqueKeys(multiset(InputOrder(BlankRows(releases), entries)), RowRank)
  {
    var rows := BlankRows(releases);
    ParsedEntries(rows, entries);
    DistinctVersions(releases, entries);
    DistinctVersionsRankPermutation(rows, entries);
    var mapped := MapBack(rows, RankTable(entries));
    var done := InputOrder(rows, entries);
    forall i, j | 0 <= i < j < |done| ensures RowRank(done[i]) != RowRank(done[j]) {
      assert done[i] == Finished(mapped[i]) && done[j] == Finished(mapped[j]);
    }
    UniqueKeysOfDistinct(done, RowRank);
  }

  /** When no two records share a version key, the emitted table does not
      depend on the order of the input records: every rearrangement of them
      gives the same table. */
  lemma {:induction false} OrderIndependent(releases: seq<Release>, reordered: seq<Release>)
    requires multiset(reordered) == multiset(releases)
    requires CatalogSpec(releases).Ok? && DistinctKeys(releases)
    ensures CatalogSpec(reordered) == CatalogSpec(releases)
  {
    ReorderedAcceptable(releases, reordered);
    assert TryAll(BlankRows(releases), ParseRow).Ok?;
    assert TryAll(BlankRows(reordered), ParseRow).Ok?;
    var entries := TryAll(BlankRows(releases), ParseRow).value;
    var reentries := TryAll(BlankRows(reordered), ParseRow).value;
    RankTableOfRearrangement(releases, reordered, entries, reentries);
    InputOrderOfReleases(releases, entries);
    InputOrderOfReleases(reordered, reentries);
    var done := InputOrder(BlankRows(releases), entries);
    var redone := InputOrder(BlankRows(reordered), reentries);
    MapRearranged(releases, reordered, Completed(RankTable(entries)));
    FilterRearranged(done, redone, Supported);
    InputOrderUniqueRanks(releases, entries);
    FilterSubMultiset(done, Supported);
    UniqueKeysSub(multiset(Filter(done, Supported)), multiset(done), RowRank);
    NatLeIsTotalOrder();
    SortByOfRearrangement(Filter(done, Supported), Filter(redone, Supported), RowRank, NatLe);
    CatalogOutput(releases, entries);
    CatalogOutput(reordered, reentries);
  }
}
