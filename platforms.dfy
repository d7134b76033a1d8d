/** The two entry points around the ranking block. downloader.py:109-111
    collects the set of platforms and runs the block once per platform, on
    that platform's records only; json-extractor.py:11-64 runs it once over
    every record of the file, whatever its platform. */
module Platforms {
  import opened Sorting
  import opened Lists
  import opened Versions
  import opened Catalog
  import opened Properties

  /** Line 109: the set of platforms that occur in the records. */
  function PlatformsOf(releases: seq<Release>): set<string> {
    set i | 0 <= i < |releases| :: releases[i].platform
  }

  /** A platform is in the set exactly when some record carries it. */
  lemma PlatformsOfExactly(releases: seq<Release>, plat: string)
    ensures plat in PlatformsOf(releases) <==> exists i :: 0 <= i < |releases| && releases[i].platform == plat
  {
  }

  function OnPlatform(plat: string): Release -> bool {
    (r: Release) => r.platform == plat
  }

  /** Line 111: the records of one platform, in their order. */
  function PlatformRecords(releases: seq<Release>, plat: string): seq<Release> {
    Filter(releases, OnPlatform(plat))
  }

  /** A platform's list holds exactly the records of that platform. */
  lemma PlatformRecordsExactly(releases: seq<Release>, plat: string, r: Release)
    ensures r in PlatformRecords(releases, plat) <==> r in releases && r.platform == plat
  {
    FilterMembers(releases, OnPlatform(plat), r);
  }

  /** A record of another platform, wherever it sits in the input, changes
      nothing in a platform's table. */
  lemma OtherPlatformIgnored(before: seq<Release>, x: Release, after: seq<Release>, plat: string)
    requires x.platform != plat
    ensures PlatformRecords(before + [x] + after, plat) == PlatformRecords(before + after, plat)
    ensures CatalogSpec(PlatformRecords(before + [x] + after, plat)) == CatalogSpec(PlatformRecords(before + after, plat))
  {
    var keep := OnPlatform(plat);
    FilterAppend(before + [x], after, keep);
    FilterAppend(before, [x], keep);
    FilterAppend(before, after, keep);
    assert [x][..0] == [];
    assert Filter([x], keep) == [];
  }

  /** Every row of a platform's table is a record of that platform. */
  lemma {:induction false} PlatformTableRows(releases: seq<Release>, plat: string, out: seq<Row>)
    requires CatalogSpec(PlatformRecords(releases, plat)) == Ok(out)
    ensures forall row :: row in out ==>
      exists r :: r in releases && r.platform == plat && ClassifyRow(BlankRow(r)) == Ok(row.(rank := 0))
  {
    var filtered := PlatformRecords(releases, plat);
    OutputRows(filtered, out);
    forall row | row in out
      ensures exists r :: r in releases && r.platform == plat && ClassifyRow(BlankRow(r)) == Ok(row.(rank := 0))
    {
      var i :| 0 <= i < |filtered| && ClassifyRow(BlankRow(filtered[i])) == Ok(row.(rank := 0));
      PlatformRecordsExactly(releases, plat, filtered[i]);
    }
  }

  /** With a single platform, the per-platform table of downloader.py and
      the table of json-extractor.py are the same. */
  lemma {:induction false} SinglePlatformAgrees(releases: seq<Release>, plat: string)
    requires forall i :: 0 <= i < |releases| ==> releases[i].platform == plat
    ensures PlatformRecords(releases, plat) == releases
  {
    if releases != [] {
      var rest := releases[..|releases| - 1];
      SinglePlatformAgrees(rest, plat);
      assert releases == rest + [releases[|releases| - 1]];
    }
  }

  /** How the loop over the platforms ends: every platform's table written,
      or the block raised on one platform and the script stopped there,
      after writing the tables of the platforms it had already done. */
  datatype Run = Finished | Aborted(platform: string, error: CatalogError)

  /** Lines 109-165 for one platform: the block on that platform's records. */
  method BuildPlatform(releases: seq<Release>, plat: string) returns (table: Result<seq<Row>>)
    ensures table == CatalogSpec(PlatformRecords(releases, plat))
  {
    var filtered := PlatformRecords(releases, plat);
    table := BuildCatalog(filtered);
  }

  /** Lines 109-171: the platforms are visited in the set's iteration order,
      which the model leaves open; each visited platform gets its table, and
      the first platform whose block raises stops the loop. */
  method BuildPerPlatform(releases: seq<Release>) returns (written: map<string, seq<Row>>, run: Run)
    ensures written.Keys <= PlatformsOf(releases)
    ensures forall p :: p in written ==> CatalogSpec(PlatformRecords(releases, p)) == Ok(written[p])
    ensures run.Finished? ==> written.Keys == PlatformsOf(releases)
    ensures run.Aborted? ==> run.platform in PlatformsOf(releases) && run.platform !in written
    ensures run.Aborted? ==> CatalogSpec(PlatformRecords(releases, run.platform)) == Err(run.error)
    ensures run.Finished? <==> forall p :: p in PlatformsOf(releases) ==> CatalogSpec(PlatformRecords(releases, p)).Ok?
  {
    var platforms := PlatformsOf(releases);
    var remaining := platforms;
    written := map[];
    while remaining != {}
      invariant remaining <= platforms
      invariant written.Keys == platforms - remaining
      invariant forall p :: p in written ==> CatalogSpec(PlatformRecords(releases, p)) == Ok(written[p])
      decreases remaining
    {
      var plat :| plat in remaining;
      var table := BuildPlatform(releases, plat);
      if table.Err? {
        return written, Aborted(plat, table.error);
      }
      written := written[plat := table.value];
      remaining := remaining - {plat};
    }
    run := Finished;
  }

  /** json-extractor.py:11-64: every record of the file ranked together. */
  method ExtractAll(releases: seq<Release>) returns (result: Result<seq<Row>>)
    ensures result == CatalogSpec(releases)
    ensures result.Ok? <==> forall i :: 0 <= i < |releases| ==> Acceptable(releases[i].versionNumber)
  {
    CatalogSucceedsIff(releases);
    result := BuildCatalog(releases);
  }
}
