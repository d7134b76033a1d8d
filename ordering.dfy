/** The four successive stable sorts of downloader.py:133-136 and
    json-extractor.py:32-35: `split` is sorted by the marker, then by the
    maintenance number, then by the minor number and last by the major
    number. Each list.sort is stable, so the outcome is one stable sort by
    the whole version key (SuccessiveSorts). */
module Ordering {
  import opened Text
  import opened Sorting
  import opened Versions

  /** `<=` on Python ints. */
  predicate NatLe(a: nat, b: nat) {
    a <= b
  }

  /** `<=` on Python str. */
  predicate StrLe(a: string, b: string) {
    a == b || StrLess(a, b)
  }

  lemma NatLeIsTotalOrder()
    ensures TotalOrder(NatLe)
  {
  }

  lemma StrLeIsTotalOrder()
    ensures TotalOrder(StrLe)
  {
    forall x, y | StrLe(x, y) && StrLe(y, x) ensures x == y {
      if x != y {
        StrLessIrreflexive(x);
        StrLessTransitive(x, y, x);
      }
    }
    forall x, y, z | StrLe(x, y) && StrLe(y, z) ensures StrLe(x, z) {
      if x != y && y != z {
        StrLessTransitive(x, y, z);
      }
    }
    forall x, y ensures StrLe(x, y) || StrLe(y, x) {
      if x != y {
        StrLessTotal(x, y);
      }
    }
  }

  /** itemgetter(0) .. itemgetter(3) on an element of `split`. */
  function MajorKey(e: Entry): nat {
    e.key.major
  }

  function MinorKey(e: Entry): nat {
    e.key.minor
  }

  function MaintenanceKey(e: Entry): nat {
    e.key.maintenance
  }

  function MarkerKey(e: Entry): string {
    e.key.marker
  }

  /** The part of the key the first two sorts have ordered by. */
  function MaintenanceTail(e: Entry): VersionKey {
    VersionKey(0, 0, e.key.maintenance, e.key.marker)
  }

  /** The part of the key the first three sorts have ordered by. */
  function MinorTail(e: Entry): VersionKey {
    VersionKey(0, e.key.minor, e.key.maintenance, e.key.marker)
  }

  /** The four sorts in the order the source runs them. */
  function FourSorts(split: seq<Entry>): seq<Entry> {
    var byMarker := SortBy(split, MarkerKey, StrLe);
    var byMaintenance := SortBy(byMarker, MaintenanceKey, NatLe);
    var byMinor := SortBy(byMaintenance, MinorKey, NatLe);
    SortBy(byMinor, MajorKey, NatLe)
  }

  /** The four stable sorts together are one stable sort by the version key. */
  lemma SuccessiveSorts(split: seq<Entry>)
    ensures FourSorts(split) == SortBy(split, EntryKey, KeyLe)
  {
    ThenMaintenance(split);
    ThenMinor(split);
    ThenMajor(split);
  }

  lemma ThenMaintenance(split: seq<Entry>)
    ensures SortBy(SortBy(split, MarkerKey, StrLe), MaintenanceKey, NatLe) == SortBy(split, MaintenanceTail, KeyLe)
  {
    KeyLeIsTotalOrder();
    NatLeIsTotalOrder();
    StrLeIsTotalOrder();
    forall x, y ensures KeyLe(MaintenanceTail(x), MaintenanceTail(y)) <==>
      NatLe(MaintenanceKey(x), MaintenanceKey(y)) && (MaintenanceKey(x) == MaintenanceKey(y) ==> StrLe(MarkerKey(x), MarkerKey(y))) {
    }
    LexSort(split, MaintenanceKey, NatLe, MarkerKey, StrLe, MaintenanceTail, KeyLe);
  }

  lemma ThenMinor(split: seq<Entry>)
    ensures SortBy(SortBy(split, MaintenanceTail, KeyLe), MinorKey, NatLe) == SortBy(split, MinorTail, KeyLe)
  {
    KeyLeIsTotalOrder();
    NatLeIsTotalOrder();
    forall x, y ensures KeyLe(MinorTail(x), MinorTail(y)) <==>
      NatLe(MinorKey(x), MinorKey(y)) && (MinorKey(x) == MinorKey(y) ==> KeyLe(MaintenanceTail(x), MaintenanceTail(y))) {
    }
    LexSort(split, MinorKey, NatLe, MaintenanceTail, KeyLe, MinorTail, KeyLe);
  }

  lemma ThenMajor(split: seq<Entry>)
    ensures SortBy(SortBy(split, MinorTail, KeyLe), MajorKey, NatLe) == SortBy(split, EntryKey, KeyLe)
  {
    KeyLeIsTotalOrder();
    NatLeIsTotalOrder();
    forall x, y ensures KeyLe(EntryKey(x), EntryKey(y)) <==>
      NatLe(MajorKey(x), MajorKey(y)) && (MajorKey(x) == MajorKey(y) ==> KeyLe(MinorTail(x), MinorTail(y))) {
    }
    LexSort(split, MajorKey, NatLe, MinorTail, KeyLe, EntryKey, KeyLe);
  }
}
