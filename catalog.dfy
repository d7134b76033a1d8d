/** The ranking and classification block that both entry points run
    (downloader.py:115-165 per platform, json-extractor.py:11-64 over the
    whole file). CatalogSpec states, as functions, what each step of the
    block computes; BuildCatalog performs the steps as the source does, on
    arrays updated in place, and is proved to agree with CatalogSpec. */
module Catalog {
  import opened Text
  import opened Sorting
  import opened Lists
  import opened Versions
  import opened Ordering

  /** A release record as the device or the JSON file supplies it. */
  datatype Release = Release(platform: string, versionNumber: string, fileName: string, checksum: string)

  /** A row of `listoflist`, in the order of the emitted CSV columns:
      rank, versionNumber, family, type, fileName, shA256Checksum. */
  datatype Row = Row(rank: nat, versionNumber: string, family: string, releaseType: ReleaseType,
                     fileName: string, checksum: string)

  /** A row before ranking and classification: the rank, family and type
      columns still hold placeholders. */
  function BlankRow(r: Release): Row {
    Row(0, r.versionNumber, "", Pending, r.fileName, r.checksum)
  }

  function BlankRows(releases: seq<Release>): seq<Row> {
    seq(|releases|, i requires 0 <= i < |releases| => BlankRow(releases[i]))
  }

  function ParseRow(row: Row): Result<Entry> {
    ParseVersion(row.versionNumber)
  }

  function RowRank(row: Row): nat {
    row.rank
  }

  /** The entries, already in sorted order, numbered 1..N. */
  function Ranked(split: seq<Entry>): seq<Entry> {
    seq(|split|, k requires 0 <= k < |split| => split[k].(rank := k + 1))
  }

  /** `split` once sorted and numbered (downloader.py:133-144). */
  function RankTable(entries: seq<Entry>): seq<Entry> {
    Ranked(SortBy(entries, EntryKey, KeyLe))
  }

  /** The rank a row ends with after scanning the whole of split: that of the
      last entry whose raw version equals the row's, or the rank it had. */
  function LastRank(split: seq<Entry>, version: string, current: nat): nat {
    if split == [] then current
    else if split[|split| - 1].raw == version then split[|split| - 1].rank
    else LastRank(split[..|split| - 1], version, current)
  }

  function MapBack(rows: seq<Row>, split: seq<Entry>): seq<Row> {
    seq(|rows|, i requires 0 <= i < |rows| => rows[i].(rank := LastRank(split, rows[i].versionNumber, rows[i].rank)))
  }

  /** Fills in the family and type columns of one row. */
  function ClassifyRow(row: Row): Result<Row> {
    match FamilyOf(row.versionNumber)
    case Err(e) => Err(e)
    case Ok(family) =>
      match ReleaseTypeOf(row.versionNumber)
      case Err(e) => Err(e)
      case Ok(t) => Ok(row.(family := family, releaseType := t))
  }

  /** The row's family, read as a number, is at least 7.1. */
  predicate Supported(row: Row) {
    FamilyValue(row.family).Ok? && FamilyValue(row.family).value >= MinimumFamily
  }

  /** The family column read by float(). */
  function RowFamilyValue(row: Row): Result<real> {
    FamilyValue(row.family)
  }

  /** The filter of downloader.py:163-165: the first family float() cannot
      read aborts; otherwise the rows of a supported family, in order. */
  function KeepSupported(rows: seq<Row>): Result<seq<Row>> {
    match TryAll(rows, RowFamilyValue)
    case Err(e) => Err(e)
    case Ok(_) => Ok(Filter(rows, Supported))
  }

  /** Lines 133-151: the rows, each carrying the rank of its version, in
      rank order. */
  function RankRows(listoflist: seq<Row>, entries: seq<Entry>): seq<Row> {
    SortBy(MapBack(listoflist, RankTable(entries)), RowRank, NatLe)
  }

  /** Lines 155-165: classify the ranked rows, then keep the supported ones. */
  function ClassifyAndFilter(ranked: seq<Row>): Result<seq<Row>> {
    match TryAll(ranked, ClassifyRow)
    case Err(e) => Err(e)
    case Ok(classified) => KeepSupported(classified)
  }

  /** What the block computes for one list of releases. */
  function CatalogSpec(releases: seq<Release>): Result<seq<Row>> {
    var listoflist := BlankRows(releases);
    match TryAll(listoflist, ParseRow)
    case Err(e) => Err(e)
    case Ok(entries) => ClassifyAndFilter(RankRows(listoflist, entries))
  }

  // ---- the block, step by step ----

  /** Lines 119-129: split every version, add the marker "c" and read
      the three numbers; the first version that does not parse aborts. */
  method ParseEntries(listoflist: array<Row>) returns (result: Result<seq<Entry>>)
    ensures result == TryAll(listoflist[..], ParseRow)
  {
    var split: seq<Entry> := [];
    var i := 0;
    while i < listoflist.Length
      invariant 0 <= i <= listoflist.Length
      invariant TryAll(listoflist[..i], ParseRow) == Ok(split)
    {
      var parsed := ParseRow(listoflist[i]);
      if parsed.Err? {
        TryAllFailsAt(listoflist[..], i, ParseRow);
        return Err(parsed.error);
      }
      TryAllExtend(listoflist[..], i, ParseRow, split);
      split := split + [parsed.value];
      i := i + 1;
    }
    assert listoflist[..i] == listoflist[..];
    result := Ok(split);
  }

  /** Lines 141-144: append 1, 2, ... to the sorted entries. */
  method AssignRanks(split: array<Entry>)
    modifies split
    ensures split[..] == Ranked(old(split[..]))
  {
    var i := 0;
    while i < split.Length
      invariant 0 <= i <= split.Length
      invariant forall k :: 0 <= k < i ==> split[k] == old(split[k]).(rank := k + 1)
      invariant forall k :: i <= k < split.Length ==> split[k] == old(split[k])
    {
      split[i] := split[i].(rank := i + 1);
      i := i + 1;
    }
  }

  /** Lines 146-149: every row takes the rank of each sorted entry with the
      same raw version, so the last such entry wins. */
  method MapBackRanks(listoflist: array<Row>, split: array<Entry>)
    modifies listoflist
    ensures listoflist[..] == MapBack(old(listoflist[..]), split[..])
  {
    var i := 0;
    while i < listoflist.Length
      invariant 0 <= i <= listoflist.Length
      invariant forall k :: 0 <= k < i ==>
        listoflist[k] == old(listoflist[k]).(rank := LastRank(split[..], old(listoflist[k]).versionNumber, old(listoflist[k]).rank))
      invariant forall k :: i <= k < listoflist.Length ==> listoflist[k] == old(listoflist[k])
    {
      ghost var before := listoflist[..];
      var j := 0;
      while j < split.Length
        invariant 0 <= j <= split.Length
        invariant listoflist[i] == old(listoflist[i]).(rank := LastRank(split[..j], old(listoflist[i]).versionNumber, old(listoflist[i]).rank))
        invariant forall k :: 0 <= k < listoflist.Length && k != i ==> listoflist[k] == before[k]
      {
        assert split[..j + 1][..j] == split[..j];
        if listoflist[i].versionNumber == split[j].raw {
          listoflist[i] := listoflist[i].(rank := split[j].rank);
        }
        j := j + 1;
      }
      assert split[..j] == split[..];
      i := i + 1;
    }
  }

  /** Lines 155-157: write the family and type of every row, in rank order;
      a row whose version has no family aborts. */
  method ClassifyRows(listoflist: array<Row>) returns (outcome: Result<seq<Row>>)
    modifies listoflist
    ensures outcome == TryAll(old(listoflist[..]), ClassifyRow)
    ensures outcome.Ok? ==> listoflist[..] == outcome.value
  {
    ghost var rows := listoflist[..];
    ghost var done: seq<Row> := [];
    var i := 0;
    while i < listoflist.Length
      invariant 0 <= i <= listoflist.Length && |done| == i
      invariant forall k :: i <= k < listoflist.Length ==> listoflist[k] == rows[k]
      invariant forall k :: 0 <= k < i ==> listoflist[k] == done[k]
      invariant TryAll(rows[..i], ClassifyRow) == Ok(done)
    {
      var classified := ClassifyRow(listoflist[i]);
      if classified.Err? {
        TryAllFailsAt(rows, i, ClassifyRow);
        return Err(classified.error);
      }
      TryAllExtend(rows, i, ClassifyRow, done);
      listoflist[i] := classified.value;
      done := done + [classified.value];
      i := i + 1;
    }
    assert rows[..i] == rows;
    assert listoflist[..] == done;
    outcome := Ok(listoflist[..]);
  }

  /** Lines 159-165: keep the rows whose family is at least 7.1. */
  method KeepSupportedRows(listoflist: seq<Row>) returns (result: Result<seq<Row>>)
    ensures result == KeepSupported(listoflist)
  {
    var finallist: seq<Row> := [];
    var i := 0;
    while i < |listoflist|
      invariant 0 <= i <= |listoflist|
      invariant TryAll(listoflist[..i], RowFamilyValue).Ok?
      invariant finallist == Filter(listoflist[..i], Supported)
    {
      assert listoflist[..i + 1][..i] == listoflist[..i];
      var value := FamilyValue(listoflist[i].family);
      if value.Err? {
        TryAllStopsAtFailure(listoflist, i + 1, RowFamilyValue);
        return Err(value.error);
      }
      if value.value >= MinimumFamily {
        finallist := finallist + [listoflist[i]];
      }
      i := i + 1;
    }
    assert listoflist[..i] == listoflist;
    result := Ok(finallist);
  }

  /** Lines 130-151: sort and number the parsed versions, give every row
      the rank of its version and put the rows in rank order. */
  method RankListRows(listoflist: array<Row>, entries: seq<Entry>)
    modifies listoflist
    ensures listoflist[..] == RankRows(old(listoflist[..]), entries)
  {
    var split := new Entry[|entries|](k requires 0 <= k < |entries| => entries[k]);
    assert split[..] == entries;
    // lines 133-136
    NatLeIsTotalOrder();
    StrLeIsTotalOrder();
    InsertionSort(split, MarkerKey, StrLe);
    InsertionSort(split, MaintenanceKey, NatLe);
    InsertionSort(split, MinorKey, NatLe);
    InsertionSort(split, MajorKey, NatLe);
    SuccessiveSorts(entries);
    // lines 138-144
    AssignRanks(split);
    assert split[..] == RankTable(entries);
    // lines 146-151
    MapBackRanks(listoflist, split);
    InsertionSort(listoflist, RowRank, NatLe);
  }

  /** Lines 155-165 on the ranked rows. */
  method ClassifyAndFilterRows(listoflist: array<Row>) returns (result: Result<seq<Row>>)
    modifies listoflist
    ensures result == ClassifyAndFilter(old(listoflist[..]))
    ensures result.Ok? ==> TryAll(old(listoflist[..]), ClassifyRow).Ok?
    ensures result.Ok? ==> listoflist[..] == TryAll(old(listoflist[..]), ClassifyRow).value
  {
    var classified := ClassifyRows(listoflist);
    if classified.Err? {
      return Err(classified.error);
    }
    result := KeepSupportedRows(listoflist[..]);
  }

  /** The whole block for one list of releases (the per-platform body of
      downloader.py and the body of json-extractor.py). */
  method BuildCatalog(releases: seq<Release>) returns (result: Result<seq<Row>>)
    ensures result == CatalogSpec(releases)
  {
    // lines 115-118
    var listoflist := new Row[|releases|](i requires 0 <= i < |releases| => BlankRow(releases[i]));
    assert listoflist[..] == BlankRows(releases);
    // lines 119-129
    var parsed := ParseEntries(listoflist);
    if parsed.Err? {
      return Err(parsed.error);
    }
    RankListRows(listoflist, parsed.value);
    result := ClassifyAndFilterRows(listoflist);
  }
}
