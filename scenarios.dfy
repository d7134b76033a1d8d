/** Concrete releases worked through the model's lemmas: the "c" marker, the
    textual comparison of hotfix markers, the family and type of a feature
    and a maintenance release, the 7.1 cut-off, versions the block
    rejects, and three releases taken through the whole block. */
module Scenarios {
  import opened Text
  import opened Sorting
  import opened Lists
  import opened Versions
  import opened Ordering
  import opened Catalog
  import opened Ranking

  // ---- spelling out the literals ----

  lemma SmallNumerals()
    ensures IsNumeral("0") && DigitsValue("0") == 0
    ensures IsNumeral("1") && DigitsValue("1") == 1
    ensures IsNumeral("3") && DigitsValue("3") == 3
    ensures IsNumeral("7") && DigitsValue("7") == 7
    ensures IsNumeral("9") && DigitsValue("9") == 9
    ensures IsNumeral("10") && DigitsValue("10") == 10
  {
    assert "10"[..1] == "1";
  }

  /** A three-number version "a.b.c" as the parse sees it. */
  lemma ParsedPlain(v: string, a: string, b: string, c: string)
    requires v == a + ['.'] + b + ['.'] + c
    requires IsNumeral(a) && IsNumeral(b) && IsNumeral(c)
    ensures ParseVersion(v) == Ok(Entry(VersionKey(DigitsValue(a), DigitsValue(b), DigitsValue(c), "c"), v, 0))
  {
    ParseThreeFields(a, '.', b, '.', c);
  }

  /** A hotfix version "a.b.c-suffix" as the parse sees it. */
  lemma ParsedHotfix(v: string, a: string, b: string, c: string, suffix: string)
    requires v == a + ['.'] + b + ['.'] + c + ['-'] + suffix
    requires IsNumeral(a) && IsNumeral(b) && IsNumeral(c)
    ensures ParseVersion(v) == Ok(Entry(VersionKey(DigitsValue(a), DigitsValue(b), DigitsValue(c), suffix), v, 0))
  {
    ParseFourFields(a, '.', b, '.', c, '-', suffix);
  }

  lemma Parse913()
    ensures ParseVersion("9.1.3") == Ok(Entry(VersionKey(9, 1, 3, "c"), "9.1.3", 0))
  {
    SmallNumerals();
    ParsedPlain("9.1.3", "9", "1", "3");
  }

  lemma Parse913Hotfix(suffix: string)
    ensures ParseVersion("9.1.3-" + suffix) == Ok(Entry(VersionKey(9, 1, 3, suffix), "9.1.3-" + suffix, 0))
  {
    SmallNumerals();
    ParsedHotfix("9.1.3-" + suffix, "9", "1", "3", suffix);
  }

  lemma ParseHotfixOne()
    ensures ParseVersion("9.1.3-h1") == Ok(Entry(VersionKey(9, 1, 3, "h1"), "9.1.3-h1", 0))
  {
    Parse913Hotfix("h1");
    assert "9.1.3-" + "h1" == "9.1.3-h1";
  }

  // ---- ordering ----

  /** "9.1.3" gets the marker "c"; "9.1.3-h1" keeps "h1"; "c" sorts first,
      so the plain release comes before its first hotfix. */
  lemma PlainSortsBeforeHotfix()
    ensures ParseVersion("9.1.3") == Ok(Entry(VersionKey(9, 1, 3, "c"), "9.1.3", 0))
    ensures ParseVersion("9.1.3-h1") == Ok(Entry(VersionKey(9, 1, 3, "h1"), "9.1.3-h1", 0))
    ensures KeyLess(VersionKey(9, 1, 3, "c"), VersionKey(9, 1, 3, "h1"))
  {
    Parse913();
    ParseHotfixOne();
    assert StrLess("c", "h1");
  }

  /** Markers compare as text: "h10" sorts before "h2". */
  lemma HotfixMarkersCompareAsText()
    ensures ParseVersion("9.1.3-h10") == Ok(Entry(VersionKey(9, 1, 3, "h10"), "9.1.3-h10", 0))
    ensures ParseVersion("9.1.3-h2") == Ok(Entry(VersionKey(9, 1, 3, "h2"), "9.1.3-h2", 0))
    ensures KeyLess(VersionKey(9, 1, 3, "h10"), VersionKey(9, 1, 3, "h2"))
  {
    ParseHotfixTen();
    ParseHotfixTwo();
    TenBeforeTwo();
  }

  lemma ParseHotfixTen()
    ensures ParseVersion("9.1.3-h10") == Ok(Entry(VersionKey(9, 1, 3, "h10"), "9.1.3-h10", 0))
  {
    Parse913Hotfix("h10");
    assert "9.1.3-" + "h10" == "9.1.3-h10";
  }

  lemma ParseHotfixTwo()
    ensures ParseVersion("9.1.3-h2") == Ok(Entry(VersionKey(9, 1, 3, "h2"), "9.1.3-h2", 0))
  {
    Parse913Hotfix("h2");
    assert "9.1.3-" + "h2" == "9.1.3-h2";
  }

  lemma TenBeforeTwo()
    ensures StrLess("h10", "h2")
  {
    assert StrLess("10", "2");
  }

  /** Among any releases that parse, a row for "9.1.3" is ranked before a
      row for "9.1.3-h1". */
  lemma PlainRanksBeforeHotfix(rows: seq<Row>, entries: seq<Entry>, i: nat, j: nat)
    requires TryAll(rows, ParseRow) == Ok(entries)
    requires i < |rows| && j < |rows|
    requires rows[i].versionNumber == "9.1.3" && rows[j].versionNumber == "9.1.3-h1"
    ensures MapBack(rows, RankTable(entries))[i].rank < MapBack(rows, RankTable(entries))[j].rank
  {
    ParsedEntries(rows, entries);
    PlainSortsBeforeHotfix();
    RanksFollowKeys(rows, entries, i, j);
  }

  /** Among any releases that parse, a row for "9.1.3-h10" is ranked before
      a row for "9.1.3-h2". */
  lemma HotfixTenRanksBeforeHotfixTwo(rows: seq<Row>, entries: seq<Entry>, i: nat, j: nat)
    requires TryAll(rows, ParseRow) == Ok(entries)
    requires i < |rows| && j < |rows|
    requires rows[i].versionNumber == "9.1.3-h10" && rows[j].versionNumber == "9.1.3-h2"
    ensures MapBack(rows, RankTable(entries))[i].rank < MapBack(rows, RankTable(entries))[j].rank
  {
    ParsedEntries(rows, entries);
    HotfixMarkersCompareAsText();
    RanksFollowKeys(rows, entries, i, j);
  }

  // ---- classification ----

  /** A version "a.b.c" followed by nothing or by a separator and more. */
  lemma ClassifiedAs(row: Row, a: string, b: string, c: string, tail: string)
    requires row.versionNumber == a + ['.'] + b + ['.'] + c + tail
    requires IsNumeral(a) && IsNumeral(b) && IsNumeral(c)
    requires tail == [] || tail[0] in VersionSeparators
    ensures ClassifyRow(row) == Ok(row.(family := a + "." + b, releaseType := if c == "0" then Feature else Maintenance))
  {
    NumeralsHaveNoSeparator(a);
    NumeralsHaveNoSeparator(b);
    assert row.versionNumber == a + "." + b + "." + (c + tail);
    FamilyIsTextBeforeSecondDot(a, b, c + tail);
    ReleaseTypeOfThirdField(a, '.', b, '.', c, tail);
  }

  /** "9.1.0" is a feature release of family "9.1". */
  lemma FeatureExample(row: Row)
    requires row.versionNumber == "9.1.0"
    ensures ClassifyRow(row) == Ok(row.(family := "9.1", releaseType := Feature))
  {
    SmallNumerals();
    assert "9.1.0" == "9" + ['.'] + "1" + ['.'] + "0" + [];
    ClassifiedAs(row, "9", "1", "0", []);
    assert "9" + "." + "1" == "9.1";
  }

  /** "9.1.3-h1" is a maintenance release of family "9.1". */
  lemma MaintenanceExample(row: Row)
    requires row.versionNumber == "9.1.3-h1"
    ensures ClassifyRow(row) == Ok(row.(family := "9.1", releaseType := Maintenance))
  {
    SmallNumerals();
    assert "9.1.3-h1" == "9" + ['.'] + "1" + ['.'] + "3" + "-h1";
    ClassifiedAs(row, "9", "1", "3", "-h1");
    assert "9" + "." + "1" == "9.1";
  }

  // ---- the 7.1 cut-off ----

  /** A row of family 7.0 is dropped. */
  lemma SevenZeroDropped(row: Row)
    requires row.family == "7.0"
    ensures FamilyValue(row.family) == Ok(7.0)
    ensures !Supported(row)
  {
    SmallNumerals();
    assert "7.0" == "7" + "." + "0";
    FamilyThreshold("7", "0");
  }

  /** A row of family 7.1 is kept. */
  lemma SevenOneKept(row: Row)
    requires row.family == "7.1"
    ensures FamilyValue(row.family) == Ok(7.1)
    ensures Supported(row)
  {
    SmallNumerals();
    assert "7.1" == "7" + "." + "1";
    FamilyThreshold("7", "1");
  }

  /** A row of family 10.0 is kept: the comparison is on numbers, although
      "10.0" is below "7.1" as text. */
  lemma TenZeroKept(row: Row)
    requires row.family == "10.0"
    ensures FamilyValue(row.family) == Ok(10.0)
    ensures Supported(row)
    ensures StrLess("10.0", "7.1")
  {
    SmallNumerals();
    assert "10.0" == "10" + "." + "0";
    FamilyThreshold("10", "0");
  }

  // ---- rejected versions ----

  /** Only two fields: int() finds no third number. */
  lemma TwoFieldsRejected()
    ensures ParseVersion("9.1") == Err(MalformedVersion("9.1"))
  {
    assert "9.1"[1..] == ".1" && ".1"[1..] == "1" && "1"[1..] == [];
    assert Delimiters("9.1", VersionSeparators, 3) == ['.'];
    FewFieldsRejected("9.1");
  }

  /** A second field that starts with something other than a digit. */
  lemma NonDigitFieldRejected(a: string, rest: string)
    requires IsNumeral(a) && rest != [] && !IsDigit(rest[0]) && rest[0] !in VersionSeparators
    ensures ParseVersion(a + ['.'] + rest) == Err(MalformedVersion(a + ['.'] + rest))
  {
    NumeralsHaveNoSeparator(a);
    SplitAt(a, '.', rest, VersionSeparators, 3);
    var field := Split(rest, VersionSeparators, 2)[0];
    assert field == rest[..FindSeparator(rest, VersionSeparators)] || field == rest;
    assert field[0] == rest[0];
  }

  /** A field that is not a number. */
  lemma LetterFieldRejected()
    ensures ParseVersion("9.x.1") == Err(MalformedVersion("9.x.1"))
  {
    SmallNumerals();
    assert "9.x.1" == "9" + ['.'] + "x.1";
    NonDigitFieldRejected("9", "x.1");
  }

  /** Hyphens alone parse, but leave no '.' to take a family from. */
  lemma HyphenOnlyHasNoFamily()
    ensures FamilyOf("9-1-3") == Err(MissingFamily("9-1-3"))
  {
    assert NoSeparator("9-1-3", {'.'});
    NoDotNoFamily("9-1-3");
  }

  // ---- one platform, end to end ----

  lemma Parse910()
    ensures ParseVersion("9.1.0") == Ok(Entry(VersionKey(9, 1, 0, "c"), "9.1.0", 0))
  {
    SmallNumerals();
    ParsedPlain("9.1.0", "9", "1", "0");
  }

  lemma TryAllThree<A, B>(s: seq<A>, f: A -> Result<B>, x: B, y: B, z: B)
    requires |s| == 3 && f(s[0]) == Ok(x) && f(s[1]) == Ok(y) && f(s[2]) == Ok(z)
    ensures TryAll(s, f) == Ok([x, y, z])
  {
    TryAllOkIff(s, f);
    var r := TryAll(s, f).value;
    assert f(s[0]) == Ok(r[0]) && f(s[1]) == Ok(r[1]) && f(s[2]) == Ok(r[2]);
    assert r == [x, y, z];
  }

  lemma SortedThree<T, K(!new)>(s: seq<T>, key: T -> K, le: (K, K) -> bool)
    requires TotalOrder(le) && |s| == 3
    requires le(key(s[0]), key(s[1])) && le(key(s[1]), key(s[2]))
    ensures SortedBy(s, key, le)
  {
  }

  /** The parsed entries of a feature release, a maintenance release and
      its first hotfix. */
  lemma ExampleParsed(a: Release, b: Release, c: Release)
    requires a.versionNumber == "9.1.0" && b.versionNumber == "9.1.3" && c.versionNumber == "9.1.3-h1"
    ensures TryAll(BlankRows([a, b, c]), ParseRow) ==
      Ok([Entry(VersionKey(9, 1, 0, "c"), "9.1.0", 0),
          Entry(VersionKey(9, 1, 3, "c"), "9.1.3", 0),
          Entry(VersionKey(9, 1, 3, "h1"), "9.1.3-h1", 0)])
  {
    var rows := BlankRows([a, b, c]);
    Parse910();
    Parse913();
    ParseHotfixOne();
    TryAllThree(rows, ParseRow, Entry(VersionKey(9, 1, 0, "c"), "9.1.0", 0),
      Entry(VersionKey(9, 1, 3, "c"), "9.1.3", 0), Entry(VersionKey(9, 1, 3, "h1"), "9.1.3-h1", 0));
  }

  /** Already in key order, the entries are numbered 1, 2, 3 as they stand. */
  lemma ExampleRankTable(entries: seq<Entry>)
    requires entries == [Entry(VersionKey(9, 1, 0, "c"), "9.1.0", 0),
                         Entry(VersionKey(9, 1, 3, "c"), "9.1.3", 0),
                         Entry(VersionKey(9, 1, 3, "h1"), "9.1.3-h1", 0)]
    ensures RankTable(entries) ==
      [Entry(VersionKey(9, 1, 0, "c"), "9.1.0", 1),
       Entry(VersionKey(9, 1, 3, "c"), "9.1.3", 2),
       Entry(VersionKey(9, 1, 3, "h1"), "9.1.3-h1", 3)]
  {
    PlainSortsBeforeHotfix();
    KeyLeIsTotalOrder();
    SortedThree(entries, EntryKey, KeyLe);
    IsSortBy(entries, entries, EntryKey, KeyLe);
  }

  /** Each row receives the rank of its own version. */
  lemma ExampleMapBack(rows: seq<Row>, table: seq<Entry>)
    requires |rows| == 3 && rows[0].versionNumber == "9.1.0" && rows[1].versionNumber == "9.1.3"
    requires rows[2].versionNumber == "9.1.3-h1"
    requires table == [Entry(VersionKey(9, 1, 0, "c"), "9.1.0", 1),
                       Entry(VersionKey(9, 1, 3, "c"), "9.1.3", 2),
                       Entry(VersionKey(9, 1, 3, "h1"), "9.1.3-h1", 3)]
    ensures MapBack(rows, table) == [rows[0].(rank := 1), rows[1].(rank := 2), rows[2].(rank := 3)]
  {
    assert "9.1.3"[4] != "9.1.0"[4] && |"9.1.3"| != |"9.1.3-h1"|;
    LastRankIsLastMatch(table, "9.1.0", rows[0].rank, 0);
    LastRankIsLastMatch(table, "9.1.3", rows[1].rank, 1);
    LastRankIsLastMatch(table, "9.1.3-h1", rows[2].rank, 2);
  }

  /** Rows numbered 1, 2, 3 are already in rank order. */
  lemma ExampleRankOrder(mapped: seq<Row>)
    requires |mapped| == 3 && mapped[0].rank == 1 && mapped[1].rank == 2 && mapped[2].rank == 3
    ensures SortBy(mapped, RowRank, NatLe) == mapped
  {
    NatLeIsTotalOrder();
    SortedThree(mapped, RowRank, NatLe);
    IsSortBy(mapped, mapped, RowRank, NatLe);
  }

  /** "9.1.3" is a maintenance release of family "9.1". */
  lemma MaintenanceWithoutHotfix(row: Row)
    requires row.versionNumber == "9.1.3"
    ensures ClassifyRow(row) == Ok(row.(family := "9.1", releaseType := Maintenance))
  {
    SmallNumerals();
    assert "9.1.3" == "9" + ['.'] + "1" + ['.'] + "3" + [];
    ClassifiedAs(row, "9", "1", "3", []);
    assert "9" + "." + "1" == "9.1";
  }

  /** The three ranked rows classified: one feature and two maintenance
      releases of family 9.1. */
  lemma ExampleClassified(ranked: seq<Row>)
    requires |ranked| == 3 && ranked[0].versionNumber == "9.1.0" && ranked[1].versionNumber == "9.1.3"
    requires ranked[2].versionNumber == "9.1.3-h1"
    ensures TryAll(ranked, ClassifyRow) ==
      Ok([ranked[0].(family := "9.1", releaseType := Feature),
          ranked[1].(family := "9.1", releaseType := Maintenance),
          ranked[2].(family := "9.1", releaseType := Maintenance)])
  {
    FeatureExample(ranked[0]);
    MaintenanceWithoutHotfix(ranked[1]);
    MaintenanceExample(ranked[2]);
    TryAllThree(ranked, ClassifyRow, ranked[0].(family := "9.1", releaseType := Feature),
      ranked[1].(family := "9.1", releaseType := Maintenance), ranked[2].(family := "9.1", releaseType := Maintenance));
  }

  /** Family 9.1 is supported, so the filter keeps all three rows. */
  lemma ExampleKept(classified: seq<Row>)
    requires forall i :: 0 <= i < |classified| ==> classified[i].family == "9.1"
    ensures KeepSupported(classified) == Ok(classified)
  {
    SmallNumerals();
    assert "9.1" == "9" + "." + "1";
    FamilyThreshold("9", "1");
    TryAllOkIff(classified, RowFamilyValue);
    FilterKeepsAll(classified, Supported);
  }

  /** Lines 133-151 on the three parsed rows: ranks 1, 2, 3 in input order. */
  lemma ExampleRankRows(rows: seq<Row>, entries: seq<Entry>)
    requires |rows| == 3 && rows[0].versionNumber == "9.1.0" && rows[1].versionNumber == "9.1.3"
    requires rows[2].versionNumber == "9.1.3-h1"
    requires entries == [Entry(VersionKey(9, 1, 0, "c"), "9.1.0", 0),
                         Entry(VersionKey(9, 1, 3, "c"), "9.1.3", 0),
                         Entry(VersionKey(9, 1, 3, "h1"), "9.1.3-h1", 0)]
    ensures RankRows(rows, entries) == [rows[0].(rank := 1), rows[1].(rank := 2), rows[2].(rank := 3)]
  {
    ExampleRankTable(entries);
    ExampleMapBack(rows, RankTable(entries));
    ExampleRankOrder(MapBack(rows, RankTable(entries)));
  }

  /** Lines 155-165 on the three ranked rows: all classified, all kept. */
  lemma ExampleClassifyAndFilter(ranked: seq<Row>)
    requires |ranked| == 3 && ranked[0].versionNumber == "9.1.0" && ranked[1].versionNumber == "9.1.3"
    requires ranked[2].versionNumber == "9.1.3-h1"
    ensures ClassifyAndFilter(ranked) ==
      Ok([ranked[0].(family := "9.1", releaseType := Feature),
          ranked[1].(family := "9.1", releaseType := Maintenance),
          ranked[2].(family := "9.1", releaseType := Maintenance)])
  {
    ExampleClassified(ranked);
    ExampleKept(TryAll(ranked, ClassifyRow).value);
  }

  /** A feature release, a maintenance release and its first hotfix, in
      that order, come out ranked 1, 2, 3, all of family 9.1, the first a
      feature release and the others maintenance releases, each with its
      own file name and checksum. */
  lemma ExampleCatalog(a: Release, b: Release, c: Release)
    requires a.versionNumber == "9.1.0" && b.versionNumber == "9.1.3" && c.versionNumber == "9.1.3-h1"
    ensures CatalogSpec([a, b, c]) ==
      Ok([Row(1, "9.1.0", "9.1", Feature, a.fileName, a.checksum),
          Row(2, "9.1.3", "9.1", Maintenance, b.fileName, b.checksum),
          Row(3, "9.1.3-h1", "9.1", Maintenance, c.fileName, c.checksum)])
  {
    var rows := BlankRows([a, b, c]);
    assert rows == [BlankRow(a), BlankRow(b), BlankRow(c)];
    ExampleParsed(a, b, c);
    var entries := [Entry(VersionKey(9, 1, 0, "c"), "9.1.0", 0),
                    Entry(VersionKey(9, 1, 3, "c"), "9.1.3", 0),
                    Entry(VersionKey(9, 1, 3, "h1"), "9.1.3-h1", 0)];
    assert CatalogSpec([a, b, c]) == ClassifyAndFilter(RankRows(rows, entries));
    ExampleRankRows(rows, entries);
    ExampleClassifyAndFilter(RankRows(rows, entries));
  }
}
