/** The Python string operations the ranking code relies on: int() and
    float() on plain decimal text, `<` on str, re.split with a character
    class and a maxsplit, and str.split on one character. */
module Text {

  predicate IsDigit(c: char) {
    '0' <= c <= '9'
  }

  /** Only decimal digits (possibly none). */
  predicate IsDigits(s: string) {
    forall i :: 0 <= i < |s| ==> IsDigit(s[i])
  }

  /** Text that int() turns into a number: one or more decimal digits. */
  predicate IsNumeral(s: string) {
    |s| > 0 && IsDigits(s)
  }

  function Pow10(n: nat): (r: nat)
    ensures r >= 1
  {
    if n == 0 then 1 else 10 * Pow10(n - 1)
  }

  /** The value int() gives a string of decimal digits. */
  function DigitsValue(s: string): (r: nat)
    requires IsDigits(s)
    ensures r < Pow10(|s|)
  {
    if s == [] then 0
    else 10 * DigitsValue(s[..|s| - 1]) + (s[|s| - 1] as int - '0' as int)
  }

  /** Leading zeros do not change the value: int("007") == int("7"). */
  lemma {:induction false} LeadingZeroIgnored(s: string)
    requires IsDigits(s)
    ensures IsDigits("0" + s) && DigitsValue("0" + s) == DigitsValue(s)
  {
    if s != [] {
      var s' := s[..|s| - 1];
      assert ("0" + s)[..|"0" + s| - 1] == "0" + s';
      LeadingZeroIgnored(s');
    }
  }

  /** Python's `<` on str: code point by code point, a proper prefix first. */
  predicate StrLess(a: string, b: string) {
    if b == [] then false
    else if a == [] then true
    else if a[0] != b[0] then a[0] < b[0]
    else StrLess(a[1..], b[1..])
  }

  /** a and b agree before position i and a has the smaller character there. */
  predicate FirstDifferenceBelow(a: string, b: string, i: nat) {
    i < |a| && i < |b| && a[..i] == b[..i] && a[i] < b[i]
  }

  lemma {:induction false} StrLessFromDifference(a: string, b: string, i: nat)
    requires FirstDifferenceBelow(a, b, i)
    ensures StrLess(a, b)
  {
    if i > 0 {
      assert a[0] == a[..i][0] == b[..i][0] == b[0];
      assert a[1..][..i - 1] == a[1..i] == b[1..i] == b[1..][..i - 1];
      StrLessFromDifference(a[1..], b[1..], i - 1);
    }
  }

  lemma {:induction false} StrLessFromPrefix(a: string, b: string)
    requires |a| < |b| && a == b[..|a|]
    ensures StrLess(a, b)
  {
    if a != [] {
      assert a[0] == b[..|a|][0];
      assert a[1..] == b[1..][..|a| - 1];
      StrLessFromPrefix(a[1..], b[1..]);
    }
  }

  lemma {:induction false} StrLessCases(a: string, b: string)
    requires StrLess(a, b)
    ensures (|a| < |b| && a == b[..|a|]) || exists i: nat :: FirstDifferenceBelow(a, b, i)
  {
    if a == [] {
    } else if a[0] != b[0] {
      assert FirstDifferenceBelow(a, b, 0);
    } else {
      StrLessCases(a[1..], b[1..]);
      if |a| - 1 < |b| - 1 && a[1..] == b[1..][..|a| - 1] {
        assert a == [a[0]] + a[1..] && b[..|a|] == [b[0]] + b[1..][..|a| - 1];
      } else {
        var i: nat :| FirstDifferenceBelow(a[1..], b[1..], i);
        assert a[..i + 1] == [a[0]] + a[1..][..i];
        assert b[..i + 1] == [b[0]] + b[1..][..i];
        assert FirstDifferenceBelow(a, b, i + 1);
      }
    }
  }

  /** StrLess is lexicographic order: a is a proper prefix of b, or they
      first differ at some position where a has the smaller character. */
  lemma StrLessIsLexicographic(a: string, b: string)
    ensures StrLess(a, b) <==>
      (|a| < |b| && a == b[..|a|]) || exists i: nat :: FirstDifferenceBelow(a, b, i)
  {
    if StrLess(a, b) {
      StrLessCases(a, b);
    } else if |a| < |b| && a == b[..|a|] {
      StrLessFromPrefix(a, b);
    } else if exists i: nat :: FirstDifferenceBelow(a, b, i) {
      var i: nat :| FirstDifferenceBelow(a, b, i);
      StrLessFromDifference(a, b, i);
    }
  }

  lemma {:induction false} StrLessIrreflexive(a: string)
    ensures !StrLess(a, a)
  {
    if a != [] {
      StrLessIrreflexive(a[1..]);
    }
  }

  lemma {:induction false} StrLessTransitive(a: string, b: string, c: string)
    requires StrLess(a, b) && StrLess(b, c)
    ensures StrLess(a, c)
  {
    if a != [] && a[0] == b[0] && b[0] == c[0] {
      StrLessTransitive(a[1..], b[1..], c[1..]);
    }
  }

  /** Any two different strings are ordered one way or the other. */
  lemma {:induction false} StrLessTotal(a: string, b: string)
    requires a != b
    ensures StrLess(a, b) || StrLess(b, a)
  {
    if a != [] && b != [] && a[0] == b[0] {
      assert a == [a[0]] + a[1..] && b == [b[0]] + b[1..];
      StrLessTotal(a[1..], b[1..]);
    }
  }

  predicate NoSeparator(s: string, seps: set<char>) {
    forall j :: 0 <= j < |s| ==> s[j] !in seps
  }

  /** The position of the first separator in s, or |s| when there is none. */
  function FindSeparator(s: string, seps: set<char>): (i: nat)
    ensures i <= |s|
    ensures NoSeparator(s[..i], seps)
    ensures i < |s| ==> s[i] in seps
  {
    if s == [] || s[0] in seps then 0
    else 1 + FindSeparator(s[1..], seps)
  }

  /** re.split on a one-character class, cutting at no more than maxsplit
      separators (str.split when seps holds one character). The last field
      keeps the rest of the text, separators included. */
  function Split(s: string, seps: set<char>, maxsplit: nat): (r: seq<string>)
    ensures 1 <= |r| <= maxsplit + 1
    decreases |s|
  {
    var i := FindSeparator(s, seps);
    if maxsplit == 0 || i == |s| then [s]
    else [s[..i]] + Split(s[i + 1..], seps, maxsplit - 1)
  }

  /** Every field but the last is free of separators; so is the last one
      when fewer than maxsplit cuts were made. */
  lemma {:induction false} SplitFields(s: string, seps: set<char>, maxsplit: nat)
    ensures var r := Split(s, seps, maxsplit);
      && (forall j :: 0 <= j < |r| - 1 ==> NoSeparator(r[j], seps))
      && (|r| <= maxsplit ==> NoSeparator(r[|r| - 1], seps))
    decreases |s|
  {
    var i := FindSeparator(s, seps);
    if maxsplit == 0 || i == |s| {
      assert i == |s| ==> s[..i] == s;
    } else {
      SplitFields(s[i + 1..], seps, maxsplit - 1);
    }
  }

  /** The separator characters Split cuts at, read off s independently. */
  function Delimiters(s: string, seps: set<char>, maxsplit: nat): seq<char>
  {
    if maxsplit == 0 || s == [] then []
    else if s[0] in seps then [s[0]] + Delimiters(s[1..], seps, maxsplit - 1)
    else Delimiters(s[1..], seps, maxsplit)
  }

  /** The fields glued back together with the given separators between them. */
  function Joined(fields: seq<string>, delims: seq<char>): string
    requires |fields| == |delims| + 1
  {
    if |fields| == 1 then fields[0]
    else fields[0] + [delims[0]] + Joined(fields[1..], delims[1..])
  }

  lemma {:induction false} DelimitersSkip(s: string, seps: set<char>, maxsplit: nat, i: nat)
    requires i <= |s| && NoSeparator(s[..i], seps)
    ensures Delimiters(s, seps, maxsplit) == Delimiters(s[i..], seps, maxsplit)
  {
    if i > 0 && maxsplit > 0 {
      assert s[0] == s[..i][0];
      assert s[1..][..i - 1] == s[1..i];
      DelimitersSkip(s[1..], seps, maxsplit, i - 1);
      assert s[1..][i - 1..] == s[i..];
    } else if i > 0 {
      assert Delimiters(s[i..], seps, 0) == [];
    }
  }

  lemma JoinedCons(f: string, fs: seq<string>, d: char, ds: seq<char>)
    requires |fs| == |ds| + 1
    ensures Joined([f] + fs, [d] + ds) == f + [d] + Joined(fs, ds)
  {
    assert ([f] + fs)[1..] == fs && ([d] + ds)[1..] == ds;
  }

  /** One step of Split and Delimiters at the first separator. */
  lemma {:induction false} SplitStep(s: string, seps: set<char>, maxsplit: nat)
    requires maxsplit > 0 && FindSeparator(s, seps) < |s|
    ensures var i := FindSeparator(s, seps);
      && Split(s, seps, maxsplit) == [s[..i]] + Split(s[i + 1..], seps, maxsplit - 1)
      && Delimiters(s, seps, maxsplit) == [s[i]] + Delimiters(s[i + 1..], seps, maxsplit - 1)
  {
    var i := FindSeparator(s, seps);
    DelimitersSkip(s, seps, maxsplit, i);
    assert s[i..][1..] == s[i + 1..];
  }

  /** Split loses nothing: joining its fields with the separators it cut at
      gives back the original text. */
  lemma {:induction false} SplitJoined(s: string, seps: set<char>, maxsplit: nat)
    ensures |Split(s, seps, maxsplit)| == |Delimiters(s, seps, maxsplit)| + 1
    ensures Joined(Split(s, seps, maxsplit), Delimiters(s, seps, maxsplit)) == s
    decreases |s|
  {
    var i := FindSeparator(s, seps);
    if maxsplit == 0 || i == |s| {
      DelimitersSkip(s, seps, maxsplit, i);
      assert i == |s| ==> s[..i] == s;
    } else {
      var rest := s[i + 1..];
      SplitStep(s, seps, maxsplit);
      SplitJoined(rest, seps, maxsplit - 1);
      var fs, ds := Split(rest, seps, maxsplit - 1), Delimiters(rest, seps, maxsplit - 1);
      JoinedCons(s[..i], fs, s[i], ds);
      CutAt(s, i);
    }
  }

  lemma CutAt(s: string, i: nat)
    requires i < |s|
    ensures s[..i] + [s[i]] + s[i + 1..] == s
  {
  }

  /** With a maxsplit that cannot be reached (str.split without maxsplit),
      no field holds a separator. */
  lemma {:induction false} SplitUnboundedFields(s: string, seps: set<char>, maxsplit: nat)
    requires maxsplit >= |s|
    ensures forall j :: 0 <= j < |Split(s, seps, maxsplit)| ==> NoSeparator(Split(s, seps, maxsplit)[j], seps)
    decreases |s|
  {
    var i := FindSeparator(s, seps);
    if maxsplit == 0 || i == |s| {
      assert s[..i] == s;
    } else {
      SplitUnboundedFields(s[i + 1..], seps, maxsplit - 1);
    }
  }

  /** FindSeparator is pinned down by its contract. */
  lemma {:induction false} FindSeparatorIs(s: string, seps: set<char>, k: nat)
    requires k <= |s| && NoSeparator(s[..k], seps) && (k < |s| ==> s[k] in seps)
    ensures FindSeparator(s, seps) == k
  {
    if k > 0 {
      assert s[0] == s[..k][0];
      assert s[1..][..k - 1] == s[1..k];
      FindSeparatorIs(s[1..], seps, k - 1);
    }
  }

  /** Cutting at a known first separator: the first field is the text before it. */
  lemma SplitAt(a: string, d: char, rest: string, seps: set<char>, maxsplit: nat)
    requires NoSeparator(a, seps) && d in seps && maxsplit > 0
    ensures Split(a + [d] + rest, seps, maxsplit) == [a] + Split(rest, seps, maxsplit - 1)
  {
    var s := a + [d] + rest;
    assert s[..|a|] == a && s[|a|] == d;
    FindSeparatorIs(s, seps, |a|);
    assert s[|a| + 1..] == rest;
  }

  /** Cutting at two known separators. */
  lemma SplitTwo(a: string, d1: char, b: string, d2: char, rest: string, seps: set<char>, maxsplit: nat)
    requires NoSeparator(a, seps) && NoSeparator(b, seps) && d1 in seps && d2 in seps && maxsplit >= 2
    ensures Split(a + [d1] + b + [d2] + rest, seps, maxsplit) == [a, b] + Split(rest, seps, maxsplit - 2)
  {
    var tail := b + [d2] + rest;
    Regroup(a, d1, b, d2, rest);
    SplitAt(a, d1, tail, seps, maxsplit);
    SplitAt(b, d2, rest, seps, maxsplit - 1);
    ConsTwo(a, b, Split(rest, seps, maxsplit - 2));
  }

  lemma Regroup(a: string, d1: char, b: string, d2: char, rest: string)
    ensures a + [d1] + b + [d2] + rest == a + [d1] + (b + [d2] + rest)
  {
  }

  lemma ConsTwo<T>(a: T, b: T, more: seq<T>)
    ensures [a] + ([b] + more) == [a, b] + more
  {
  }

  /** A text without separators is a single field. */
  lemma SplitWhole(a: string, seps: set<char>, maxsplit: nat)
    requires NoSeparator(a, seps)
    ensures Split(a, seps, maxsplit) == [a]
  {
    assert a[..|a|] == a;
    FindSeparatorIs(a, seps, |a|);
  }
}
