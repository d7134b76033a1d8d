/** Firmware version strings: the fields the ranking code splits them into,
    the sort key it builds from them, and the family and release type it
    derives from the raw text (downloader.py:119-136, 155-164, repeated in
    json-extractor.py:18-35, 54-63). */
module Versions {
  import opened Text
  import opened Sorting

  /** The ways a run aborts. Python raises here; the model returns the error. */
  datatype CatalogError =
    | MalformedVersion(version: string)  // int() on a missing or non-numeric field
    | MissingFamily(version: string)     // no second '.'-field to build the family from
    | MalformedFamily(family: string)    // float() cannot read the family

  datatype Result<T> = Ok(value: T) | Err(error: CatalogError)

  /** Applies f to every element in order; the first failure aborts, as an
      exception raised inside a Python loop does. */
  function TryAll<A, B>(s: seq<A>, f: A -> Result<B>): (r: Result<seq<B>>)
    ensures r.Ok? ==> |r.value| == |s| && forall i :: 0 <= i < |s| ==> f(s[i]) == Ok(r.value[i])
    ensures r.Err? ==> exists i :: 0 <= i < |s| && f(s[i]) == Err(r.error) && forall j :: 0 <= j < i ==> f(s[j]).Ok?
  {
    if s == [] then Ok([])
    else match TryAll(s[..|s| - 1], f)
      case Err(e) => Err(e)
      case Ok(done) =>
        match f(s[|s| - 1])
        case Err(e) => Err(e)
        case Ok(y) => Ok(done + [y])
  }

  /** Once a prefix fails, the whole run fails with the same error. */
  lemma {:induction false} TryAllStopsAtFailure<A, B>(s: seq<A>, n: nat, f: A -> Result<B>)
    requires n <= |s| && TryAll(s[..n], f).Err?
    ensures TryAll(s, f) == TryAll(s[..n], f)
    decreases |s| - n
  {
    if n < |s| {
      TryAllStopsAtFailure(s, n + 1, f);
      assert s[..n + 1][..n] == s[..n];
    } else {
      assert s[..n] == s;
    }
  }

  /** One more element that maps to a value extends a successful run. */
  lemma TryAllExtend<A, B>(s: seq<A>, i: nat, f: A -> Result<B>, done: seq<B>)
    requires i < |s| && TryAll(s[..i], f) == Ok(done) && f(s[i]).Ok?
    ensures TryAll(s[..i + 1], f) == Ok(done + [f(s[i]).value])
  {
    assert s[..i + 1][..i] == s[..i];
  }

  /** The first element that fails decides the outcome of the whole run. */
  lemma TryAllFailsAt<A, B>(s: seq<A>, i: nat, f: A -> Result<B>)
    requires i < |s| && TryAll(s[..i], f).Ok? && f(s[i]).Err?
    ensures TryAll(s, f) == Err(f(s[i]).error)
  {
    assert s[..i + 1][..i] == s[..i];
    TryAllStopsAtFailure(s, i + 1, f);
  }

  /** The run succeeds exactly when every element maps to a value. */
  lemma TryAllOkIff<A, B>(s: seq<A>, f: A -> Result<B>)
    ensures TryAll(s, f).Ok? <==> forall i :: 0 <= i < |s| ==> f(s[i]).Ok?
  {
  }

  const VersionSeparators: set<char> := {'.', '-'}

  /** The marker given to a version with only three fields. */
  const PlainMarker: string := "c"

  /** Releases of a family below this one are dropped. */
  const MinimumFamily: real := 7.1

  /** re.split(r'\.|-', version, maxsplit=3). */
  function VersionFields(version: string): seq<string> {
    Split(version, VersionSeparators, 3)
  }

  /** What the sort compares: three integers and the marker as text. */
  datatype VersionKey = VersionKey(major: nat, minor: nat, maintenance: nat, marker: string)

  /** One element of the `split` list: the key, the raw version and, once
      assigned, its rank (0 until then). */
  datatype Entry = Entry(key: VersionKey, raw: string, rank: nat)

  /** Splits a version into fields, gives a three-field version the
      marker "c" and reads the first three fields as integers. */
  function ParseVersion(version: string): Result<Entry> {
    var f := VersionFields(version);
    if |f| < 3 || !IsNumeral(f[0]) || !IsNumeral(f[1]) || !IsNumeral(f[2]) then
      Err(MalformedVersion(version))
    else
      var marker := if |f| == 3 then PlainMarker else f[3];
      Ok(Entry(VersionKey(DigitsValue(f[0]), DigitsValue(f[1]), DigitsValue(f[2]), marker), version, 0))
  }

  function EntryKey(e: Entry): VersionKey {
    e.key
  }

  /** The order the four successive stable sorts produce: major, then minor,
      then maintenance, then the marker compared as Python compares str. */
  predicate KeyLe(a: VersionKey, b: VersionKey) {
    if a.major != b.major then a.major < b.major
    else if a.minor != b.minor then a.minor < b.minor
    else if a.maintenance != b.maintenance then a.maintenance < b.maintenance
    else a.marker == b.marker || StrLess(a.marker, b.marker)
  }

  predicate KeyLess(a: VersionKey, b: VersionKey) {
    KeyLe(a, b) && a != b
  }

  lemma KeyLeIsTotalOrder()
    ensures TotalOrder(KeyLe)
  {
    forall x ensures KeyLe(x, x) { }
    forall x, y | KeyLe(x, y) && KeyLe(y, x) ensures x == y {
      if x.marker != y.marker && x.major == y.major && x.minor == y.minor && x.maintenance == y.maintenance {
        StrLessIrreflexive(x.marker);
        if StrLess(x.marker, y.marker) && StrLess(y.marker, x.marker) {
          StrLessTransitive(x.marker, y.marker, x.marker);
        }
      }
    }
    forall x, y, z | KeyLe(x, y) && KeyLe(y, z) ensures KeyLe(x, z) {
      if StrLess(x.marker, y.marker) && StrLess(y.marker, z.marker) {
        StrLessTransitive(x.marker, y.marker, z.marker);
      }
    }
    forall x, y ensures KeyLe(x, y) || KeyLe(y, x) {
      if x.marker != y.marker {
        StrLessTotal(x.marker, y.marker);
      }
    }
  }

  /** A version written as three numbers: the marker "c" is added. */
  lemma ParseThreeFields(a: string, d1: char, b: string, d2: char, c: string)
    requires IsNumeral(a) && IsNumeral(b) && IsNumeral(c)
    requires d1 in VersionSeparators && d2 in VersionSeparators
    ensures ParseVersion(a + [d1] + b + [d2] + c) ==
      Ok(Entry(VersionKey(DigitsValue(a), DigitsValue(b), DigitsValue(c), PlainMarker), a + [d1] + b + [d2] + c, 0))
  {
    FieldsOfThree(a, d1, b, d2, c);
  }

  /** A version with a suffix after the third number: the suffix is the
      marker, verbatim, later separators included. */
  lemma ParseFourFields(a: string, d1: char, b: string, d2: char, c: string, d3: char, suffix: string)
    requires IsNumeral(a) && IsNumeral(b) && IsNumeral(c)
    requires d1 in VersionSeparators && d2 in VersionSeparators && d3 in VersionSeparators
    ensures ParseVersion(a + [d1] + b + [d2] + c + [d3] + suffix) ==
      Ok(Entry(VersionKey(DigitsValue(a), DigitsValue(b), DigitsValue(c), suffix), a + [d1] + b + [d2] + c + [d3] + suffix, 0))
  {
    FieldsOfFour(a, d1, b, d2, c, d3, suffix);
  }

  lemma FieldsOfFour(a: string, d1: char, b: string, d2: char, c: string, d3: char, suffix: string)
    requires IsDigits(a) && IsDigits(b) && IsDigits(c)
    requires d1 in VersionSeparators && d2 in VersionSeparators && d3 in VersionSeparators
    ensures VersionFields(a + [d1] + b + [d2] + c + [d3] + suffix) == [a, b, c, suffix]
  {
    NumeralsHaveNoSeparator(a);
    NumeralsHaveNoSeparator(b);
    NumeralsHaveNoSeparator(c);
    var r2 := c + [d3] + suffix;
    var r1 := b + [d2] + r2;
    var v := a + [d1] + r1;
    assert a + [d1] + b + [d2] + c + [d3] + suffix == v;
    SplitAt(c, d3, suffix, VersionSeparators, 1);
    assert Split(r2, VersionSeparators, 1) == [c, suffix];
    SplitAt(b, d2, r2, VersionSeparators, 2);
    assert Split(r1, VersionSeparators, 2) == [b, c, suffix];
    SplitAt(a, d1, r1, VersionSeparators, 3);
  }

  lemma FieldsOfThree(a: string, d1: char, b: string, d2: char, c: string)
    requires IsDigits(a) && IsDigits(b) && IsDigits(c)
    requires d1 in VersionSeparators && d2 in VersionSeparators
    ensures VersionFields(a + [d1] + b + [d2] + c) == [a, b, c]
  {
    NumeralsHaveNoSeparator(a);
    NumeralsHaveNoSeparator(b);
    NumeralsHaveNoSeparator(c);
    var v, r1 := a + [d1] + b + [d2] + c, b + [d2] + c;
    assert v == a + [d1] + r1;
    SplitAt(a, d1, r1, VersionSeparators, 3);
    SplitAt(b, d2, c, VersionSeparators, 2);
    SplitWhole(c, VersionSeparators, 1);
  }

  lemma NumeralsHaveNoSeparator(s: string)
    requires IsDigits(s)
    ensures NoSeparator(s, VersionSeparators) && NoSeparator(s, {'.'})
  {
  }

  /** A version that parses is exactly its three numbers and its suffix (if
      any) joined by the separators it was cut at. */
  lemma ParsedVersionIsJoinedFields(version: string)
    requires ParseVersion(version).Ok?
    ensures var f := VersionFields(version);
      |f| == |Delimiters(version, VersionSeparators, 3)| + 1 &&
      version == Joined(f, Delimiters(version, VersionSeparators, 3)) &&
      IsNumeral(f[0]) && IsNumeral(f[1]) && IsNumeral(f[2])
  {
    SplitJoined(version, VersionSeparators, 3);
  }

  /** A version with fewer than two separators never parses. */
  lemma FewFieldsRejected(version: string)
    requires |Delimiters(version, VersionSeparators, 3)| < 2
    ensures ParseVersion(version) == Err(MalformedVersion(version))
  {
    SplitJoined(version, VersionSeparators, 3);
  }

  // ---- family and release type (lines 155-157) ----

  datatype ReleaseType = Pending | Feature | Maintenance

  /** str.split('.') fields [0] and [1] of the raw version, joined by '.'. */
  function FamilyOf(version: string): Result<string> {
    var parts := Split(version, {'.'}, |version|);
    if |parts| < 2 then Err(MissingFamily(version)) else Ok(parts[0] + "." + parts[1])
  }

  /** Feature when the third field of the version is the text "0". */
  function ReleaseTypeOf(version: string): Result<ReleaseType> {
    var f := VersionFields(version);
    if |f| < 3 then Err(MalformedVersion(version))
    else Ok(if f[2] == "0" then Feature else Maintenance)
  }

  /** The family is the text before the second '.', whatever follows. */
  lemma FamilyIsTextBeforeSecondDot(a: string, b: string, rest: string)
    requires NoSeparator(a, {'.'}) && NoSeparator(b, {'.'})
    ensures FamilyOf(a + "." + b) == Ok(a + "." + b)
    ensures FamilyOf(a + "." + b + "." + rest) == Ok(a + "." + b)
  {
    TwoDotFields(a, b);
    ThreeDotFields(a, b, rest);
  }

  lemma TwoDotFields(a: string, b: string)
    requires NoSeparator(a, {'.'}) && NoSeparator(b, {'.'})
    ensures Split(a + "." + b, {'.'}, |a + "." + b|) == [a, b]
  {
    var v := a + "." + b;
    SplitAt(a, '.', b, {'.'}, |v|);
    SplitWhole(b, {'.'}, |v| - 1);
  }

  lemma ThreeDotFields(a: string, b: string, rest: string)
    requires NoSeparator(a, {'.'}) && NoSeparator(b, {'.'})
    ensures var parts := Split(a + "." + b + "." + rest, {'.'}, |a + "." + b + "." + rest|);
      |parts| >= 2 && parts[0] == a && parts[1] == b
  {
    var v := a + "." + b + "." + rest;
    SplitTwo(a, '.', b, '.', rest, {'.'}, |v|);
  }

  /** A version with no '.' has no family. */
  lemma NoDotNoFamily(version: string)
    requires NoSeparator(version, {'.'})
    ensures FamilyOf(version) == Err(MissingFamily(version))
  {
    SplitWhole(version, {'.'}, |version|);
  }

  /** The type tests the text of the third field, not its value. */
  lemma ReleaseTypeOfThirdField(a: string, d1: char, b: string, d2: char, c: string, tail: string)
    requires IsNumeral(a) && IsNumeral(b) && IsDigits(c)
    requires d1 in VersionSeparators && d2 in VersionSeparators
    requires tail == [] || tail[0] in VersionSeparators
    ensures ReleaseTypeOf(a + [d1] + b + [d2] + c + tail) == Ok(if c == "0" then Feature else Maintenance)
  {
    if tail == [] {
      assert a + [d1] + b + [d2] + c + tail == a + [d1] + b + [d2] + c;
      FieldsOfThree(a, d1, b, d2, c);
    } else {
      assert a + [d1] + b + [d2] + c + tail == a + [d1] + b + [d2] + c + [tail[0]] + tail[1..];
      FieldsOfFour(a, d1, b, d2, c, tail[0], tail[1..]);
    }
  }

  // ---- the family threshold (lines 161-165) ----

  /** whole.frac as an exact decimal. */
  function DecimalValue(whole: string, frac: string): real
    requires IsDigits(whole) && IsDigits(frac)
  {
    DigitsValue(whole) as real + DigitsValue(frac) as real / Pow10(|frac|) as real
  }

  /** float() on plain decimal text: digits, or digits '.' digits with at
      least one digit in all. */
  function FamilyValue(family: string): Result<real> {
    var parts := Split(family, {'.'}, |family|);
    if |parts| == 1 && IsNumeral(parts[0]) then Ok(DigitsValue(parts[0]) as real)
    else if |parts| == 2 && IsDigits(parts[0]) && IsDigits(parts[1]) && |parts[0]| + |parts[1]| > 0 then
      Ok(DecimalValue(parts[0], parts[1]))
    else Err(MalformedFamily(family))
  }

  /** A family "M.F" is kept exactly when M > 7, or M == 7 and F, read as a
      fraction, is at least one tenth. */
  lemma FamilyThreshold(m: string, f: string)
    requires IsNumeral(m) && IsDigits(f)
    ensures FamilyValue(m + "." + f) == Ok(DecimalValue(m, f))
    ensures DecimalValue(m, f) >= MinimumFamily <==>
      DigitsValue(m) > 7 || (DigitsValue(m) == 7 && 10 * DigitsValue(f) >= Pow10(|f|))
  {
    NumeralsHaveNoSeparator(m);
    NumeralsHaveNoSeparator(f);
    SplitAt(m, '.', f, {'.'}, |m + "." + f|);
    SplitWhole(f, {'.'}, |m + "." + f| - 1);
    assert Split(m + "." + f, {'.'}, |m + "." + f|) == [m, f];
    ThresholdArithmetic(DigitsValue(m), DigitsValue(f), Pow10(|f|));
  }

  lemma ThresholdArithmetic(whole: nat, frac: nat, scale: nat)
    requires frac < scale
    ensures whole as real + frac as real / scale as real >= MinimumFamily <==>
      whole > 7 || (whole == 7 && 10 * frac >= scale)
  {
    var x := frac as real / scale as real;
    FractionBounds(frac, scale);
    FractionAtLeastTenth(frac, scale);
    if whole > 7 {
      assert whole as real >= 8.0;
    } else if whole < 7 {
      assert whole as real <= 6.0;
    }
  }

  lemma FractionBounds(frac: nat, scale: nat)
    requires frac < scale
    ensures 0.0 <= frac as real / scale as real < 1.0
  {
    var sr := scale as real;
    var x := frac as real / sr;
    assert x * sr == frac as real;
    MultiplyPositive(x, 1.0, sr);
  }

  lemma FractionAtLeastTenth(frac: nat, scale: nat)
    requires 0 < scale
    ensures frac as real / scale as real >= 0.1 <==> 10 * frac >= scale
  {
    var sr := scale as real;
    var x := frac as real / sr;
    assert x * sr == frac as real;
    MultiplyPositive(0.1, x, sr);
    assert 0.1 * sr <= x * sr <==> scale as real <= 10.0 * frac as real;
  }

  /** Multiplying by a positive number keeps the order. */
  lemma MultiplyPositive(a: real, b: real, c: real)
    requires c > 0.0
    ensures a <= b <==> a * c <= b * c
    ensures a < b <==> a * c < b * c
  {
  }

  /** A family text whose second part is not a number aborts the run. */
  lemma BadFamilyRejected(m: string, f: string)
    requires IsNumeral(m) && NoSeparator(f, {'.'}) && !IsDigits(f)
    ensures FamilyValue(m + "." + f) == Err(MalformedFamily(m + "." + f))
  {
    NumeralsHaveNoSeparator(m);
    SplitAt(m, '.', f, {'.'}, |m + "." + f|);
    SplitWhole(f, {'.'}, |m + "." + f| - 1);
  }
}
