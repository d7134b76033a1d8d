# paloversion: the firmware version ranking and classification block

paloversion collects PAN-OS firmware images and writes, per platform, a CSV
table of the releases: every row carries a rank in version order, the
version string, the release family (`major.minor`), whether it is a Feature
or a Maintenance release, the file name and the SHA-256 checksum. The table
is built by one block of code that appears twice with identical logic:
`downloader.py:109-171` runs it once per platform, and
`json-extractor.py:11-64` runs it once over all the records of a JSON file.

This Dafny project models that block and proves what it computes.

- **Split and parse** (`downloader.py:119-129`). Each version is split on
  `.` and `-` with at most three splits (`re.split(r'\.|-', v, maxsplit=3)`).
  A three-field version gets the marker `"c"`. The first three fields are
  read as integers; the first version that cannot be read aborts the run.
- **Sort** (`downloader.py:133-136`). Four successive stable `list.sort`
  calls order the entries by marker, maintenance, minor and major. The
  marker is compared as a Python `str`, so `"c"` comes before `"h1"` and
  `"h10"` before `"h2"`.
- **Rank** (`downloader.py:141-144`). The sorted entries are numbered
  1..N.
- **Map back** (`downloader.py:146-151`). Each row takes the rank of the
  *last* sorted entry with the same raw version string; the rows are then
  stable-sorted by rank.
- **Classify** (`downloader.py:155-157`). The family is the first two
  `.`-fields of the raw text joined by `.`. The type is Feature exactly when
  the third `.`/`-` field is the text `"0"`.
- **Filter** (`downloader.py:159-165`). Rows whose family, read by
  `float()`, is below 7.1 are dropped. A family `float()` cannot read aborts
  the run.

Layout, one module per file:

- `text.dfy` (`Text`): Python string operations. It covers digit strings
  and `int()`, `str` ordering (`StrLess`) and `re.split`/`str.split` with a
  split limit (`Split`).
- `sorting.dfy` (`Sorting`): stable sorting.
  - `SortBy` is the specification: a stable insertion sort by a key.
  - `SortedBy` and `SameKeyFilters` state that a sequence is sorted, and
    that its elements of each key keep their relative order.
  - `InsertionSort` sorts an array in place, like `list.sort`.
  - `LexSort` states when two stable sorts equal one sort by a combined key.
- `lists.dfy` (`Lists`): the list comprehensions `Filter` and `Map`.
- `versions.dfy` (`Versions`): the errors, version parsing, the sort key,
  family, release type and the 7.1 threshold.
- `ordering.dfy` (`Ordering`): the four `itemgetter` sorts and their
  composition.
- `catalog.dfy` (`Catalog`): the block itself.
  - `CatalogSpec` states what each step computes, as functions.
  - `BuildCatalog` performs the steps as the source does, on arrays changed
    in place.
- `ranking.dfy` (`Ranking`): what the ranks are.
- `properties.dfy` (`Properties`): what the whole block outputs and when it
  aborts.
- `scenarios.dfy` (`Scenarios`): concrete versions worked through the
  model's lemmas.
- `platforms.dfy` (`Platforms`): the two entry points. It covers the
  per-platform partition and loop of `downloader.py` and the all-records run
  of `json-extractor.py`.

The two source files share the block line for line. The `json-extractor.py`
counterparts of the `downloader.py` lines cited below are:

| downloader.py | json-extractor.py |
|---|---|
| 115-118 | 15-17 |
| 119-124 | 18-23 |
| 126-129 | 25-28 |
| 133-136 | 32-35 |
| 138-144 | 37-43 |
| 146-151 | 45-50 |
| 155-157 | 54-56 |
| 159-165 | 58-64 |

Behaviour of the block worth noting:

- The three-field marker is the one-letter string `"c"`. A hotfix marker
  that sorts below `"c"` as text (`"a1"`, say) therefore ranks before the
  plain release.
- Markers are never read as numbers: they are always compared as text.
- The order is not strict. Entries with equal keys but different raw text
  (`9.1.3` and `9.1.3-c`) keep their input order. When no two records share a
  version key, every order of the records gives the same table
  (`Properties.OrderIndependent`).
- Rows with equal version strings all take the rank of the last matching
  entry. Row ranks are therefore 1..N without gaps only when all versions
  differ (`Ranking.DistinctVersionsRankPermutation`).
- Release type tests the text `"0"`, so `9.1.00` is a Maintenance release.
- A failure on one platform ends the whole script, not only that platform.
  The tables of the platforms already done have been written
  (`Platforms.BuildPerPlatform`).

## Model

| member | source | states |
|---|---|---|
| Text.DigitsValue | downloader.py:127-129 | `int()` of a digit string is below 10^length |
| Text.LeadingZeroIgnored | downloader.py:127-129 | a leading zero does not change the value `int()` reads |
| Text.StrLess | downloader.py:133 | Python `str` `<` on the markers: lexicographic by character, irreflexive, transitive and total (the four StrLess lemmas below) |
| Text.StrLessIsLexicographic | downloader.py:133 | Python `str` `<`: a proper prefix, or a smaller character at the first difference |
| Text.StrLessIrreflexive | downloader.py:133 | no string is below itself |
| Text.StrLessTransitive | downloader.py:133 | `str` `<` is transitive |
| Text.StrLessTotal | downloader.py:133 | of two different strings, one is below the other |
| Text.FindSeparator | downloader.py:121 | the index of the first separator, or the length when there is none; nothing before it is a separator |
| Text.Split | downloader.py:121 | a split with limit m gives between 1 and m+1 fields |
| Text.SplitFields | downloader.py:121 | no field except the last holds a separator; neither does the last when the limit was not reached |
| Text.SplitJoined | downloader.py:121 | there is one separator fewer than fields, and fields and separators rejoined give back the string |
| Text.SplitUnboundedFields | downloader.py:156 | `str.split('.')` without a limit leaves no `.` in any field |
| Text.SplitAt | downloader.py:121 | a separator-free head before a separator is the first field; the rest is split with one split fewer |
| Text.SplitTwo | downloader.py:121 | two separator-free heads are the first two fields |
| Text.SplitWhole | downloader.py:121 | a string without separators is a single field |
| Text.DelimitersSkip | downloader.py:121 | the separators found do not depend on a separator-free prefix |
| Text.SplitStep | downloader.py:121 | one split step: the text before the first separator, then the split of the rest |
| Text.FindSeparatorIs | downloader.py:121 | the first separator is at k when none is before k and k holds one |
| Versions.TryAll | downloader.py:126-129 | Ok means every element succeeded, with its value in order; Err is the error of the first element that fails |
| Versions.TryAllOkIff | downloader.py:126-129 | the loop succeeds if and only if every element does |
| Versions.TryAllStopsAtFailure | downloader.py:126-129 | nothing after the first failure affects the outcome |
| Versions.TryAllExtend | downloader.py:126-129 | one more successful element appends its value |
| Versions.TryAllFailsAt | downloader.py:126-129 | the first failing element's error is the outcome |
| Versions.ParseVersion | downloader.py:119-129 | a version split with at most three splits, given the marker "c" when it has three fields and read by `int()` in its first three; MalformedVersion otherwise (ParseThreeFields, ParseFourFields, FewFieldsRejected, ParsedVersionIsJoinedFields) |
| Versions.ParseThreeFields | downloader.py:121-129 | three numerals get the key (a, b, c, "c") |
| Versions.ParseFourFields | downloader.py:121-129 | with a fourth field, the key is (a, b, c, suffix), with the suffix kept verbatim, later separators included |
| Versions.FieldsOfFour | downloader.py:121 | three numbers and a suffix split into exactly those four fields |
| Versions.FieldsOfThree | downloader.py:121 | three numbers split into exactly those three fields |
| Versions.NumeralsHaveNoSeparator | downloader.py:121 | a digit string holds neither separator |
| Versions.ParsedVersionIsJoinedFields | downloader.py:121-129 | a version that parses is its fields rejoined, and its first three fields are numerals |
| Versions.FewFieldsRejected | downloader.py:126-129 | a version with fewer than two separators aborts with MalformedVersion |
| Versions.KeyLe | downloader.py:133-136 | the order the four sorts leave: major, minor, maintenance, then the marker as text; a total order (KeyLeIsTotalOrder) that the four sorts together follow (Ordering.SuccessiveSorts) |
| Versions.KeyLeIsTotalOrder | downloader.py:133-136 | the (major, minor, maintenance, marker-as-text) order is total |
| Versions.FamilyOf | downloader.py:156 | the first two `str.split('.')` fields joined by `.`; MissingFamily when there is no second field (FamilyIsTextBeforeSecondDot, NoDotNoFamily) |
| Versions.FamilyIsTextBeforeSecondDot | downloader.py:156 | the family of a.b or a.b.rest is a.b |
| Versions.TwoDotFields | downloader.py:156 | `'a.b'.split('.')` is [a, b] |
| Versions.ThreeDotFields | downloader.py:156 | `'a.b.rest'.split('.')` starts with a, b |
| Versions.NoDotNoFamily | downloader.py:156 | a version without `.` has no family: MissingFamily |
| Versions.ReleaseTypeOf | downloader.py:157 | Feature when the third `re.split` field is the text "0", Maintenance otherwise (ReleaseTypeOfThirdField) |
| Versions.ReleaseTypeOfThirdField | downloader.py:157 | the type is Feature exactly when the third field is the text "0" |
| Versions.FamilyValue | downloader.py:164 | `float()` of the family as an exact decimal; MalformedFamily when it is not digit text (FamilyThreshold, BadFamilyRejected) |
| Versions.FamilyThreshold | downloader.py:164 | `float(m.f) >= 7.1` exactly when m > 7, or m = 7 and f/10^len(f) >= 0.1 |
| Versions.ThresholdArithmetic | downloader.py:164 | the comparison with 7.1 in whole and fraction parts |
| Versions.BadFamilyRejected | downloader.py:164 | a family whose fraction is not digits aborts with MalformedFamily |
| Sorting.SortBy | downloader.py:133-136 | stable `list.sort` by a key: sorted, each key's elements in input order, and the only such rearrangement (SortByProperties, IsSortBy, SortedUnique) |
| Sorting.KeyFilterAppend | downloader.py:133-136 | the elements with one key, taken from a concatenation, are those of each part in turn |
| Sorting.KeyFilterMembers | downloader.py:133-136 | the elements with key k are exactly the members with that key |
| Sorting.KeyFilterCount | downloader.py:133-136 | taking one key's elements keeps every copy of them |
| Sorting.SameKeyFiltersMultiset | downloader.py:133-136 | equal per-key subsequences make a permutation |
| Sorting.SwapKeepsKeyFilters | downloader.py:133-136 | swapping neighbours with different keys keeps every key's subsequence |
| Sorting.InsertKeepsKeyFilters | downloader.py:133-136 | stable insertion keeps every key's subsequence of input + [x] |
| Sorting.InsertMultiset | downloader.py:133-136 | insertion adds exactly x |
| Sorting.InsertSorted | downloader.py:133-136 | insertion into a sorted list keeps it sorted |
| Sorting.SortByProperties | downloader.py:133-136 | a stable sort is sorted and keeps the input order within each key |
| Sorting.LastKeyIsMaximal | downloader.py:133-136 | the last element of a sorted list has the largest key |
| Sorting.LastKeysAgree | downloader.py:133-136 | two sorted lists with the same per-key subsequences end on the same key |
| Sorting.DropLastKeepsKeyFilters | downloader.py:133-136 | dropping the shared last element keeps the per-key subsequences equal |
| Sorting.SortedUnique | downloader.py:133-136 | there is only one sorted, stable rearrangement |
| Sorting.IsSortBy | downloader.py:133-136 | anything sorted and stable is the stable sort |
| Sorting.KeyFilterNested | downloader.py:133-136 | the elements with a combined key are those with each part of the key |
| Sorting.KeyFilterNone | downloader.py:133-136 | no element carries an impossible key |
| Sorting.KeyFilterKeepsSorted | downloader.py:133-136 | taking one key's elements keeps another key's order |
| Sorting.SortedWithinClass | downloader.py:133-136 | within one class, the sub-key order holds between positions |
| Sorting.LexSort | downloader.py:133-136 | a stable sort by B, then a stable sort by A, is one stable sort by (A, B) |
| Sorting.InsertionSort | downloader.py:133-136 | `list.sort` in place: the array ends as the stable sort of its old contents |
| Sorting.SinkLast | downloader.py:133-136 | one insertion step: the first i+1 elements become the stable insertion of the old a[i] into the old sorted prefix, the rest of the array is unchanged, and every key's subsequence is kept |
| Sorting.SwapStep | downloader.py:133-136 | swapping the sinking element with its left neighbour moves it one place left and changes nothing else |
| Sorting.InsertAt | downloader.py:133-136 | the stable insertion puts x just after the last element whose key is not above x's |
| Sorting.SinkLastDone | downloader.py:133-136 | where the sinking stops, the prefix is the stable insertion, sorted, the suffix untouched, and every key's subsequence kept |
| Sorting.SameKeyFiltersAppend | downloader.py:133-136 | equal per-key subsequences stay equal with a common suffix appended |
| Sorting.UniqueKeysOfDistinct | downloader.py:133-136 | pairwise different keys mean no element repeats and no two elements share a key |
| Sorting.UniqueKeysSub | downloader.py:133-136 | a part of a collection with unique keys has unique keys |
| Sorting.KeyFilterAtMostOne | downloader.py:133-136 | with unique keys, each key holds at most one element |
| Sorting.SameKeyFiltersOfUnique | downloader.py:133-136 | two rearrangements of one collection with unique keys have the same per-key subsequences |
| Sorting.SortByOfRearrangement | downloader.py:133-136 | with unique keys, every rearrangement of the input sorts to the same list |
| Lists.Filter | downloader.py:163-165 | the list comprehension with `if`: exactly the members that pass, in their order, each with all its copies (FilterMembers, FilterKeepsSorted, FilterCount) |
| Lists.FilterMembers | downloader.py:163-165 | the comprehension keeps exactly the members that pass |
| Lists.FilterKeepsSorted | downloader.py:163-165 | filtering keeps the rank order |
| Lists.FilterAppend | downloader.py:163-165 | filtering distributes over concatenation |
| Lists.KeyFilterMap | downloader.py:155-157 | a map that keeps the key commutes with taking one key's elements |
| Lists.KeyFilterOfFilter | downloader.py:163-165 | filtering commutes with taking one key's elements |
| Lists.MapKeepsSorted | downloader.py:155-157 | a map that keeps the key keeps the order |
| Lists.FilterKeepsAll | downloader.py:163-165 | a filter every row passes keeps the list as it is |
| Lists.FilterCount | downloader.py:163-165 | a kept element keeps every copy; a dropped one has none |
| Lists.FilterRearranged | downloader.py:163-165 | filtering two rearrangements of the same rows gives two rearrangements of the same rows |
| Lists.FilterSubMultiset | downloader.py:163-165 | the kept rows are part of the input rows |
| Lists.MapRearranged | downloader.py:155-157 | classifying two rearrangements of the same rows gives two rearrangements of the same rows |
| Ordering.NatLeIsTotalOrder | downloader.py:134-136 | `<=` on ints is a total order |
| Ordering.StrLeIsTotalOrder | downloader.py:133 | `<=` on str is a total order |
| Ordering.FourSorts | downloader.py:133-136 | the four `itemgetter` sorts in source order; equal to one stable sort by the whole key (SuccessiveSorts) |
| Ordering.SuccessiveSorts | downloader.py:133-136 | the four `itemgetter` sorts, in source order, equal one stable sort by the whole key |
| Ordering.ThenMaintenance | downloader.py:133-134 | marker then maintenance sort = one sort by (maintenance, marker) |
| Ordering.ThenMinor | downloader.py:135 | adding the minor sort = one sort by (minor, maintenance, marker) |
| Ordering.ThenMajor | downloader.py:136 | adding the major sort = one sort by the whole key |
| Catalog.RankTable | downloader.py:133-144 | the entries stably sorted by the version key and numbered 1..N (Ranking.RankTableProperties) |
| Catalog.LastRank | downloader.py:146-149 | the rank of the last entry carrying the version, or the rank the row had when there is none (Ranking.LastRankIsLastMatch, Ranking.LastRankWithoutMatch) |
| Catalog.MapBack | downloader.py:146-149 | each row with the rank LastRank gives it, nothing else changed (Ranking.RowRankAt, Ranking.RowRanks) |
| Catalog.RankRows | downloader.py:133-151 | the mapped rows stably sorted by rank (Ranking.RankedRowsOrdered) |
| Catalog.ClassifyRow | downloader.py:155-157 | family and type filled in and nothing else changed, or the row's error (Properties.ClassifyIgnoresRank, Scenarios.ClassifiedAs) |
| Catalog.KeepSupported | downloader.py:159-165 | the first family `float()` cannot read aborts; otherwise the rows of family at least 7.1, in order (KeepSupportedRows, Lists.FilterMembers) |
| Catalog.ClassifyAndFilter | downloader.py:155-165 | classification, then the filter; succeeds exactly when every row is classifiable (Properties.ClassifyAndFilterOkIff) |
| Catalog.CatalogSpec | downloader.py:115-165 | the whole block as functions: it succeeds exactly when every version is acceptable (Properties.CatalogSucceedsIff), and its table is described by Properties.CatalogOutput and Properties.OutputRows |
| Catalog.ParseEntries | downloader.py:119-129 | the split/int loop yields the parsed entries in input order, or the first version's error |
| Catalog.AssignRanks | downloader.py:141-144 | the counter loop gives the k-th sorted entry rank k |
| Catalog.MapBackRanks | downloader.py:146-149 | the nested loop gives every row the rank of the last entry with its version |
| Catalog.ClassifyRows | downloader.py:155-157 | family and type filled in row by row, or the first error |
| Catalog.KeepSupportedRows | downloader.py:159-165 | the rows of family >= 7.1, in order, or the first family `float()` rejects |
| Catalog.RankListRows | downloader.py:133-151 | the four in-place sorts, ranking, map-back and rank sort give the rows of RankRows |
| Catalog.ClassifyAndFilterRows | downloader.py:155-165 | classification in place, then the filter: the result is ClassifyAndFilter of the old rows, and on success the array holds every old row classified |
| Catalog.BuildCatalog | downloader.py:115-165 | the block on arrays agrees with CatalogSpec on every input |
| Ranking.ParsedEntries | downloader.py:119-129 | a successful parse gives every row its entry, with raw text equal to the version |
| Ranking.RankTableProperties | downloader.py:133-144 | `split` ends with ranks exactly 1..N in position order, sorted by key, ties in input order, a permutation of the parsed entries |
| Ranking.TableEntryOrigin | downloader.py:133-144 | every ranked entry comes from some input row |
| Ranking.LastRankIsLastMatch | downloader.py:146-149 | last match wins: the rank is that of the last entry with the row's version |
| Ranking.LastRankWithoutMatch | downloader.py:146-149 | with no matching entry the row keeps its rank |
| Ranking.LastPositionExists | downloader.py:146-149 | a version present in `split` has a last position |
| Ranking.LastPositionUnique | downloader.py:146-149 | the last position of a version is unique |
| Ranking.RowRankAt | downloader.py:146-149 | after map-back a row differs only in its rank, which is in 1..N and is the last match's |
| Ranking.RowRanks | downloader.py:146-149 | the same for every row at once |
| Ranking.EqualVersionsShareRank | downloader.py:146-149 | rows with the same version string get the same rank |
| Ranking.RankedEntryOfRow | downloader.py:146-149 | a row's rank points to an entry with the row's key |
| Ranking.RanksFollowKeys | downloader.py:133-149 | a smaller key gives a smaller rank, and a smaller rank means a key no larger |
| Ranking.RankedRowsOrdered | downloader.py:151 | the rows end in rank order, ties in input order, a permutation of the mapped rows |
| Ranking.DistinctCount | downloader.py:146-149 | distinct elements occur once |
| Ranking.RepeatCount | downloader.py:146-149 | a repeated element occurs at least twice |
| Ranking.DistinctRearranged | downloader.py:146-149 | a permutation of distinct elements is distinct |
| Ranking.DistinctTableVersions | downloader.py:133-144 | distinct input versions stay distinct in `split` |
| Ranking.DistinctVersionsRankPermutation | downloader.py:141-149 | with distinct versions the row ranks are pairwise different and cover 1..N |
| Properties.ClassifyIgnoresRank | downloader.py:155-157 | classification changes only family and type, and does not depend on the rank |
| Properties.ClassifyAndFilterOkIff | downloader.py:155-165 | classify-and-filter succeeds exactly when every version has a family, three fields and a readable family |
| Properties.SameRowsClassifiable | downloader.py:151-157 | reordering rows does not change whether classification succeeds |
| Properties.CatalogSucceedsIff | downloader.py:119-165 | the block succeeds exactly when every version parses, has a family and a readable family |
| Properties.ParsedCatalogOkIff | downloader.py:151-165 | the same, once parsing succeeded |
| Properties.FirstMalformedVersion | downloader.py:119-129 | the first version that does not parse is the reported error |
| Properties.CatalogOutput | downloader.py:115-165 | the output is the classified, ranked rows in input order, filtered, then stable-sorted by rank |
| Properties.FinishedRow | downloader.py:115-157 | each row in input order is its record classified, with a rank in 1..N |
| Properties.FinishedOfRanked | downloader.py:155-157 | classifying a ranked row keeps the rank |
| Properties.OutputMultiset | downloader.py:151-165 | the output is a permutation of the kept rows and is in rank order |
| Properties.KeptRowOrigin | downloader.py:159-165 | a kept row is supported, ranked in 1..N and comes from a record |
| Properties.SupportedRowKept | downloader.py:159-165 | a record of a supported family is kept |
| Properties.OutputRows | downloader.py:115-165 | the output is rank-ordered; each row is supported, ranked 1..N and is a record with family and type filled in; every supported record appears |
| Properties.ParsedReleases | downloader.py:119-129 | the parsed entries are each record's version parsed, in input order |
| Properties.ReorderedAcceptable | downloader.py:115-165 | a rearrangement of records the block accepts is accepted |
| Properties.RankTableOfRearrangement | downloader.py:133-144 | with distinct version keys, `split` sorted and ranked does not depend on the input order |
| Properties.InputOrderOfReleases | downloader.py:146-157 | the rows in input order are each record ranked against `split` and classified |
| Properties.DistinctVersions | downloader.py:119-129 | records with distinct version keys have distinct version strings |
| Properties.InputOrderUniqueRanks | downloader.py:141-149 | with distinct version keys, no two rows share a rank |
| Properties.OrderIndependent | downloader.py:115-165 | with distinct version keys, every rearrangement of the records gives the same table |
| Scenarios.SmallNumerals | downloader.py:127-129 | `int()` of the digit strings used below |
| Scenarios.ParsedPlain | downloader.py:121-129 | "a.b.c" parses to (a, b, c, "c") |
| Scenarios.ParsedHotfix | downloader.py:121-129 | "a.b.c-s" parses to (a, b, c, s) |
| Scenarios.Parse913 | downloader.py:121-129 | "9.1.3" parses to (9, 1, 3, "c") |
| Scenarios.Parse913Hotfix | downloader.py:121-129 | "9.1.3-s" parses to (9, 1, 3, s) |
| Scenarios.ParseHotfixOne | downloader.py:121-129 | "9.1.3-h1" parses to (9, 1, 3, "h1") |
| Scenarios.ParseHotfixTen | downloader.py:121-129 | "9.1.3-h10" parses to (9, 1, 3, "h10") |
| Scenarios.ParseHotfixTwo | downloader.py:121-129 | "9.1.3-h2" parses to (9, 1, 3, "h2") |
| Scenarios.TenBeforeTwo | downloader.py:133 | "h10" is below "h2" as text |
| Scenarios.PlainSortsBeforeHotfix | downloader.py:121-133 | the key of "9.1.3" is below that of "9.1.3-h1" |
| Scenarios.HotfixMarkersCompareAsText | downloader.py:121-133 | the key of "9.1.3-h10" is below that of "9.1.3-h2" |
| Scenarios.PlainRanksBeforeHotfix | downloader.py:121-149 | in any input that parses, "9.1.3" is ranked before "9.1.3-h1" |
| Scenarios.HotfixTenRanksBeforeHotfixTwo | downloader.py:121-149 | in any input that parses, "9.1.3-h10" is ranked before "9.1.3-h2" |
| Scenarios.ClassifiedAs | downloader.py:155-157 | "a.b.c…" gets family a.b, and type Feature exactly when c is "0" |
| Scenarios.FeatureExample | downloader.py:155-157 | "9.1.0" is family 9.1, Feature |
| Scenarios.MaintenanceExample | downloader.py:155-157 | "9.1.3-h1" is family 9.1, Maintenance |
| Scenarios.SevenZeroDropped | downloader.py:163-165 | family 7.0 is dropped |
| Scenarios.SevenOneKept | downloader.py:163-165 | family 7.1 is kept |
| Scenarios.TenZeroKept | downloader.py:163-165 | family 10.0 is kept, though "10.0" is below "7.1" as text |
| Scenarios.TwoFieldsRejected | downloader.py:126-129 | "9.1" aborts with MalformedVersion |
| Scenarios.NonDigitFieldRejected | downloader.py:126-129 | a second field that does not start with a digit aborts |
| Scenarios.LetterFieldRejected | downloader.py:126-129 | "9.x.1" aborts with MalformedVersion |
| Scenarios.HyphenOnlyHasNoFamily | downloader.py:156 | "9-1-3" parses but has no family |
| Scenarios.Parse910 | downloader.py:121-129 | "9.1.0" parses to (9, 1, 0, "c") |
| Scenarios.TryAllThree | downloader.py:126-129 | three successes give their three values, in order |
| Scenarios.SortedThree | downloader.py:133-136 | three elements in key order neighbour by neighbour are sorted |
| Scenarios.ExampleParsed | downloader.py:119-129 | "9.1.0", "9.1.3", "9.1.3-h1" parse to (9, 1, 0, "c"), (9, 1, 3, "c"), (9, 1, 3, "h1") |
| Scenarios.ExampleRankTable | downloader.py:133-144 | those entries are already in order and are ranked 1, 2, 3 |
| Scenarios.ExampleMapBack | downloader.py:146-149 | each of the three rows receives its own version's rank |
| Scenarios.ExampleRankOrder | downloader.py:151 | rows ranked 1, 2, 3 stay in place under the rank sort |
| Scenarios.ExampleRankRows | downloader.py:133-151 | the three rows come out of ranking as 1, 2, 3 in input order |
| Scenarios.MaintenanceWithoutHotfix | downloader.py:155-157 | "9.1.3" is family 9.1, Maintenance |
| Scenarios.ExampleClassified | downloader.py:155-157 | the three rows are classified Feature, Maintenance, Maintenance, all family 9.1 |
| Scenarios.ExampleKept | downloader.py:159-165 | rows of family 9.1 are all kept |
| Scenarios.ExampleClassifyAndFilter | downloader.py:155-165 | the three ranked rows are classified and all kept |
| Scenarios.ExampleCatalog | downloader.py:115-165 | records for 9.1.0, 9.1.3 and 9.1.3-h1, in that order, give the table (1, 9.1.0, 9.1, Feature), (2, 9.1.3, 9.1, Maintenance), (3, 9.1.3-h1, 9.1, Maintenance), each with its record's file name and checksum |
| Platforms.PlatformsOf | downloader.py:109 | the set of the records' platforms: exactly the platforms some record carries (PlatformsOfExactly) |
| Platforms.PlatformRecords | downloader.py:111 | one platform's records, in input order: exactly the records carrying it (PlatformRecordsExactly) |
| Platforms.PlatformsOfExactly | downloader.py:109 | a platform is in the set exactly when some record carries it |
| Platforms.PlatformRecordsExactly | downloader.py:111 | a platform's list holds exactly that platform's records |
| Platforms.OtherPlatformIgnored | downloader.py:110-111 | a record of another platform changes neither the platform's list nor its table |
| Platforms.PlatformTableRows | downloader.py:110-165 | every row of a platform's table is a record of that platform, classified |
| Platforms.SinglePlatformAgrees | json-extractor.py:15-17 | with one platform, its list is the whole input, so both entry points build the same table |
| Platforms.BuildPlatform | downloader.py:111-165 | one platform's table is the block on that platform's records |
| Platforms.BuildPerPlatform | downloader.py:109-171 | every written table is its platform's block result; all platforms are written unless one aborts, which then is a platform whose block fails; the loop finishes exactly when every platform's block succeeds |
| Platforms.ExtractAll | json-extractor.py:11-64 | the block over all records, whatever their platform; it succeeds exactly when every version is acceptable |

## Left out

- Device API calls (`downloader.py:29-98`) are network I/O through the panos library.
- SHA-256 hashing (`downloader.py:100-107`) is file I/O and cryptography. The checksum is an input string copied to the output unchanged.
- The user's file-name regular expression (`downloader.py:54`) is left out. The records are taken as already filtered.
- Argument parsing, the `input()` prompt, JSON loading (`json-extractor.py:1-9`), the CSV writer and output file naming (`downloader.py:167-171`, `json-extractor.py:66-70`) are I/O. `BuildPerPlatform` returns the tables it would write.
- `json-extractor.py:66` reads the first record's platform to name the file, which raises on an empty input. That is output naming and is not modelled: `ExtractAll` on no records gives an empty table.
- Versions.FamilyValue: `float()` is modelled as an exact decimal on plain digit text. Python's binary floating point differs only for fraction strings far longer than any version.
- Versions.ParseVersion: `int()` and `float()` also accept signs, surrounding whitespace and underscores. The model treats only non-empty digit strings as numbers and anything else as the abort case.
- `downloader.py:138-140` pops the `"c"` marker after sorting. The map-back reads only the last two elements of each entry, so the pop changes nothing the block outputs, and the model keeps the marker in the key.
- The split loop (`downloader.py:119-124`) and the `int()` loop (`downloader.py:126-129`) are merged into one loop over the rows. A split never fails, so the first error is the same.
- Python's `IndexError` (too few fields, or no second `.`-field) and `ValueError` (a field `int()` or `float()` rejects) are reported as the three `CatalogError` kinds. Which Python exception class is raised is not modelled.
- The iteration order of the platform set (`downloader.py:110`) is unspecified in Python. `BuildPerPlatform` picks each next platform nondeterministically, and its contract holds for every order.
- Platforms.BuildPerPlatform: on an abort, the contract states which tables were written but not the order they were written in.
