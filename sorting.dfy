/** Stable sorting by a key, as Python's list.sort(key=...) does it.

    A stable sort is pinned down by two facts: the result is ordered by the
    key, and for every key value the elements carrying that key appear in the
    same relative order as in the input (KeyFilter is unchanged). Together
    these determine the result uniquely (SortedUnique), so the in-place array
    sort and the functional reference sort SortBy are interchangeable. */
module Sorting {

  /** A total order on keys: reflexive, antisymmetric, transitive, total. */
  ghost predicate TotalOrder<K(!new)>(le: (K, K) -> bool) {
    && (forall x :: le(x, x))
    && (forall x, y :: le(x, y) && le(y, x) ==> x == y)
    && (forall x, y, z :: le(x, y) && le(y, z) ==> le(x, z))
    && (forall x, y :: le(x, y) || le(y, x))
  }

  /** The elements of s whose key is k, in their order in s. */
  function KeyFilter<T, K(==)>(s: seq<T>, key: T -> K, k: K): seq<T>
  {
    if s == [] then []
    else KeyFilter(s[..|s| - 1], key, k) + (if key(s[|s| - 1]) == k then [s[|s| - 1]] else [])
  }

  /** Every key class of t is the same subsequence as in s: t is a
      rearrangement of s that keeps equal-key elements in order. */
  ghost predicate SameKeyFilters<T, K(!new)>(s: seq<T>, t: seq<T>, key: T -> K) {
    forall k :: KeyFilter(s, key, k) == KeyFilter(t, key, k)
  }

  ghost predicate SortedBy<T, K>(s: seq<T>, key: T -> K, le: (K, K) -> bool) {
    forall i, j :: 0 <= i < j < |s| ==> le(key(s[i]), key(s[j]))
  }

  /** Inserts x after every trailing element whose key is not above key(x). */
  function Insert<T, K>(s: seq<T>, x: T, key: T -> K, le: (K, K) -> bool): seq<T>
  {
    if s == [] || le(key(s[|s| - 1]), key(x)) then s + [x]
    else Insert(s[..|s| - 1], x, key, le) + [s[|s| - 1]]
  }

  /** The reference stable sort: insertion sort, one element at a time. */
  function SortBy<T, K>(s: seq<T>, key: T -> K, le: (K, K) -> bool): seq<T>
  {
    if s == [] then [] else Insert(SortBy(s[..|s| - 1], key, le), s[|s| - 1], key, le)
  }

  lemma {:induction false} KeyFilterAppend<T, K>(s: seq<T>, t: seq<T>, key: T -> K, k: K)
    ensures KeyFilter(s + t, key, k) == KeyFilter(s, key, k) + KeyFilter(t, key, k)
    decreases |t|
  {
    if t == [] {
      assert s + t == s;
    } else {
      var t' := t[..|t| - 1];
      assert (s + t)[..|s + t| - 1] == s + t';
      KeyFilterAppend(s, t', key, k);
    }
  }

  lemma {:induction false} KeyFilterMembers<T, K>(s: seq<T>, key: T -> K, k: K, z: T)
    ensures z in KeyFilter(s, key, k) <==> z in s && key(z) == k
  {
    if s != [] {
      var s' := s[..|s| - 1];
      assert s == s' + [s[|s| - 1]];
      KeyFilterMembers(s', key, k, z);
    }
  }

  /** The number of copies of z in s is the number in its own key class. */
  lemma {:induction false} KeyFilterCount<T, K>(s: seq<T>, key: T -> K, z: T)
    ensures multiset(KeyFilter(s, key, key(z)))[z] == multiset(s)[z]
  {
    if s != [] {
      var s' := s[..|s| - 1];
      assert s == s' + [s[|s| - 1]];
      KeyFilterCount(s', key, z);
    }
  }

  lemma SameKeyFiltersMultiset<T, K(!new)>(s: seq<T>, t: seq<T>, key: T -> K)
    requires SameKeyFilters(s, t, key)
    ensures multiset(s) == multiset(t)
  {
    forall z ensures multiset(s)[z] == multiset(t)[z] {
      KeyFilterCount(s, key, z);
      KeyFilterCount(t, key, z);
      assert KeyFilter(s, key, key(z)) == KeyFilter(t, key, key(z));
    }
  }

  /** Swapping two neighbours with different keys keeps every key class. */
  lemma SwapKeepsKeyFilters<T, K(!new)>(s: seq<T>, j: nat, key: T -> K)
    requires 0 < j < |s| && key(s[j - 1]) != key(s[j])
    ensures SameKeyFilters(s, s[..j - 1] + [s[j], s[j - 1]] + s[j + 1..], key)
  {
    var p, q := s[..j - 1], s[j + 1..];
    assert s == p + [s[j - 1], s[j]] + q;
    forall k ensures KeyFilter(s, key, k) == KeyFilter(p + [s[j], s[j - 1]] + q, key, k) {
      KeyFilterAppend(p + [s[j - 1], s[j]], q, key, k);
      KeyFilterAppend(p, [s[j - 1], s[j]], key, k);
      KeyFilterAppend(p + [s[j], s[j - 1]], q, key, k);
      KeyFilterAppend(p, [s[j], s[j - 1]], key, k);
      KeyFilterAppend([s[j - 1]], [s[j]], key, k);
      KeyFilterAppend([s[j]], [s[j - 1]], key, k);
    }
  }

  lemma {:induction false} InsertKeepsKeyFilters<T, K(!new)>(s: seq<T>, x: T, key: T -> K, le: (K, K) -> bool)
    requires TotalOrder(le)
    ensures SameKeyFilters(Insert(s, x, key, le), s + [x], key)
  {
    if s == [] || le(key(s[|s| - 1]), key(x)) {
    } else {
      var s', y := s[..|s| - 1], s[|s| - 1];
      InsertKeepsKeyFilters(s', x, key, le);
      assert key(y) != key(x);
      assert s + [x] == s' + [y, x];
      forall k ensures KeyFilter(Insert(s, x, key, le), key, k) == KeyFilter(s + [x], key, k) {
        KeyFilterAppend(Insert(s', x, key, le), [y], key, k);
        KeyFilterAppend(s', [x], key, k);
        KeyFilterAppend(s', [y, x], key, k);
        KeyFilterAppend([y], [x], key, k);
      }
    }
  }

  lemma {:induction false} InsertMultiset<T, K>(s: seq<T>, x: T, key: T -> K, le: (K, K) -> bool)
    ensures multiset(Insert(s, x, key, le)) == multiset(s) + multiset{x}
  {
    if !(s == [] || le(key(s[|s| - 1]), key(x))) {
      var s' := s[..|s| - 1];
      assert s == s' + [s[|s| - 1]];
      InsertMultiset(s', x, key, le);
    }
  }

  lemma {:induction false} InsertSorted<T, K(!new)>(s: seq<T>, x: T, key: T -> K, le: (K, K) -> bool)
    requires TotalOrder(le) && SortedBy(s, key, le)
    ensures SortedBy(Insert(s, x, key, le), key, le)
  {
    if s == [] || le(key(s[|s| - 1]), key(x)) {
      var r := s + [x];
      forall i, j | 0 <= i < j < |r| ensures le(key(r[i]), key(r[j])) {
        if j == |s| && i < |s| - 1 {
          assert le(key(s[i]), key(s[|s| - 1]));
        }
      }
    } else {
      var s', y := s[..|s| - 1], s[|s| - 1];
      InsertSorted(s', x, key, le);
      InsertMultiset(s', x, key, le);
      var t := Insert(s', x, key, le);
      forall i | 0 <= i < |t| ensures le(key(t[i]), key(y)) {
        assert t[i] in multiset(s') + multiset{x};
        if t[i] != x {
          var m :| 0 <= m < |s'| && s'[m] == t[i];
        }
      }
    }
  }

  lemma {:induction false} SortByProperties<T, K(!new)>(s: seq<T>, key: T -> K, le: (K, K) -> bool)
    requires TotalOrder(le)
    ensures SortedBy(SortBy(s, key, le), key, le)
    ensures SameKeyFilters(SortBy(s, key, le), s, key)
  {
    if s != [] {
      var s', x := s[..|s| - 1], s[|s| - 1];
      SortByProperties(s', key, le);
      var t := SortBy(s', key, le);
      InsertSorted(t, x, key, le);
      InsertKeepsKeyFilters(t, x, key, le);
      assert s == s' + [x];
      forall k ensures KeyFilter(SortBy(s, key, le), key, k) == KeyFilter(s, key, k) {
        KeyFilterAppend(t, [x], key, k);
        KeyFilterAppend(s', [x], key, k);
      }
    }
  }

  /** In a sequence ordered by the key, no element's key is above the last one's. */
  lemma LastKeyIsMaximal<T, K(!new)>(s: seq<T>, z: T, key: T -> K, le: (K, K) -> bool)
    requires TotalOrder(le) && SortedBy(s, key, le) && z in s
    ensures le(key(z), key(s[|s| - 1]))
  {
    var i :| 0 <= i < |s| && s[i] == z;
    if i < |s| - 1 {
      assert le(key(s[i]), key(s[|s| - 1]));
    }
  }

  lemma LastKeysAgree<T, K(!new)>(s: seq<T>, t: seq<T>, key: T -> K, le: (K, K) -> bool)
    requires TotalOrder(le)
    requires SortedBy(s, key, le) && SortedBy(t, key, le)
    requires SameKeyFilters(s, t, key) && s != [] && t != []
    ensures key(s[|s| - 1]) == key(t[|t| - 1])
  {
    var x, y := s[|s| - 1], t[|t| - 1];
    assert KeyFilter(s, key, key(x)) == KeyFilter(t, key, key(x));
    assert KeyFilter(s, key, key(y)) == KeyFilter(t, key, key(y));
    KeyFilterMembers(s, key, key(x), x);
    KeyFilterMembers(t, key, key(x), x);
    KeyFilterMembers(t, key, key(y), y);
    KeyFilterMembers(s, key, key(y), y);
    LastKeyIsMaximal(t, x, key, le);
    LastKeyIsMaximal(s, y, key, le);
  }

  /** Removing the last element of each keeps the key classes equal. */
  lemma DropLastKeepsKeyFilters<T, K(!new)>(s: seq<T>, t: seq<T>, key: T -> K)
    requires SameKeyFilters(s, t, key) && s != [] && t != []
    requires key(s[|s| - 1]) == key(t[|t| - 1])
    ensures s[|s| - 1] == t[|t| - 1]
    ensures SameKeyFilters(s[..|s| - 1], t[..|t| - 1], key)
  {
    var s', t' := s[..|s| - 1], t[..|t| - 1];
    var x, y := s[|s| - 1], t[|t| - 1];
    forall k ensures KeyFilter(s', key, k) == KeyFilter(t', key, k) && (k == key(x) ==> x == y) {
      var fs, ft := KeyFilter(s', key, k), KeyFilter(t', key, k);
      assert KeyFilter(s, key, k) == KeyFilter(t, key, k);
      assert KeyFilter(s, key, k) == fs + (if key(x) == k then [x] else []);
      assert KeyFilter(t, key, k) == ft + (if key(y) == k then [y] else []);
      if k == key(x) {
        assert fs + [x] == ft + [y];
        assert |fs| == |ft|;
        assert fs == (fs + [x])[..|fs|] == (ft + [y])[..|ft|] == ft;
        assert x == (fs + [x])[|fs|] == (ft + [y])[|ft|] == y;
      } else {
        assert fs == fs + [] && ft == ft + [];
      }
    }
    assert KeyFilter(s', key, key(x)) == KeyFilter(t', key, key(x)) && x == y;
  }

  /** A sequence ordered by the key is determined by its key classes. */
  lemma {:induction false} SortedUnique<T, K(!new)>(s: seq<T>, t: seq<T>, key: T -> K, le: (K, K) -> bool)
    requires TotalOrder(le)
    requires SortedBy(s, key, le) && SortedBy(t, key, le)
    requires SameKeyFilters(s, t, key)
    ensures s == t
    decreases |s|
  {
    SameKeyFiltersMultiset(s, t, key);
    assert |s| == |multiset(s)| == |multiset(t)| == |t|;
    if s != [] {
      LastKeysAgree(s, t, key, le);
      DropLastKeepsKeyFilters(s, t, key);
      SortedUnique(s[..|s| - 1], t[..|t| - 1], key, le);
      assert s == s[..|s| - 1] + [s[|s| - 1]];
      assert t == t[..|t| - 1] + [t[|t| - 1]];
    }
  }

  /** Any ordered rearrangement that keeps key classes is the reference sort. */
  lemma IsSortBy<T, K(!new)>(s: seq<T>, t: seq<T>, key: T -> K, le: (K, K) -> bool)
    requires TotalOrder(le)
    requires SortedBy(t, key, le) && SameKeyFilters(t, s, key)
    ensures t == SortBy(s, key, le)
  {
    SortByProperties(s, key, le);
    SortedUnique(t, SortBy(s, key, le), key, le);
  }

  /** Two key classes taken one after the other are the class of the
      combined key. */
  lemma {:induction false} KeyFilterNested<T, A, B, C>(v: seq<T>, kA: T -> A, a: A, kB: T -> B, b: B, kC: T -> C, c: C)
    requires forall x :: kC(x) == c <==> kA(x) == a && kB(x) == b
    ensures KeyFilter(v, kC, c) == KeyFilter(KeyFilter(v, kA, a), kB, b)
    decreases |v|
  {
    if v != [] {
      var v', x := v[..|v| - 1], v[|v| - 1];
      KeyFilterNested(v', kA, a, kB, b, kC, c);
      var f := KeyFilter(v', kA, a);
      if kA(x) == a {
        KeyFilterAppend(f, [x], kB, b);
        assert [x][..0] == [];
      } else {
        assert f + [] == f;
      }
    }
  }

  lemma KeyFilterNone<T, K>(v: seq<T>, key: T -> K, k: K)
    requires forall x :: key(x) != k
    ensures KeyFilter(v, key, k) == []
  {
    if KeyFilter(v, key, k) != [] {
      KeyFilterMembers(v, key, k, KeyFilter(v, key, k)[0]);
    }
  }

  /** A key class of an ordered sequence is ordered. */
  lemma {:induction false} KeyFilterKeepsSorted<T, A, B>(t: seq<T>, kA: T -> A, a: A, kB: T -> B, leB: (B, B) -> bool)
    requires SortedBy(t, kB, leB)
    ensures SortedBy(KeyFilter(t, kA, a), kB, leB)
  {
    if t != [] {
      var t', x := t[..|t| - 1], t[|t| - 1];
      KeyFilterKeepsSorted(t', kA, a, kB, leB);
      if kA(x) == a {
        var f := KeyFilter(t', kA, a);
        forall i | 0 <= i < |f| ensures leB(kB(f[i]), kB(x)) {
          KeyFilterMembers(t', kA, a, f[i]);
          var m :| 0 <= m < |t'| && t'[m] == f[i];
        }
      }
    }
  }

  /** When a key class is ordered by a second key, so is any pair of its
      members taken in their order in the whole sequence. */
  lemma {:induction false} SortedWithinClass<T, A, B>(u: seq<T>, kA: T -> A, a: A, kB: T -> B, leB: (B, B) -> bool, i: nat, j: nat)
    requires SortedBy(KeyFilter(u, kA, a), kB, leB)
    requires i < j < |u| && kA(u[i]) == a && kA(u[j]) == a
    ensures leB(kB(u[i]), kB(u[j]))
  {
    var u' := u[..|u| - 1];
    var f := KeyFilter(u', kA, a);
    assert u'[i] == u[i];
    if j == |u| - 1 {
      assert KeyFilter(u, kA, a) == f + [u[j]];
      KeyFilterMembers(u', kA, a, u[i]);
      var p :| 0 <= p < |f| && f[p] == u[i];
      assert (f + [u[j]])[|f|] == u[j];
    } else {
      assert u'[j] == u[j];
      assert f == KeyFilter(u, kA, a)[..|f|];
      SortedWithinClass(u', kA, a, kB, leB, i, j);
    }
  }

  /** A stable sort by kA after a stable sort by kB is one stable sort by the
      combined key that compares kA first and kB on ties: two successive
      list.sort calls with the more significant key last. */
  lemma LexSort<T, A(!new), B(!new), C(!new)>(s: seq<T>, kA: T -> A, leA: (A, A) -> bool,
                                             kB: T -> B, leB: (B, B) -> bool, kC: T -> C, leC: (C, C) -> bool)
    requires TotalOrder(leA) && TotalOrder(leB) && TotalOrder(leC)
    requires forall x, y :: leC(kC(x), kC(y)) <==> leA(kA(x), kA(y)) && (kA(x) == kA(y) ==> leB(kB(x), kB(y)))
    requires forall x, y :: kC(x) == kC(y) <==> kA(x) == kA(y) && kB(x) == kB(y)
    ensures SortBy(SortBy(s, kB, leB), kA, leA) == SortBy(s, kC, leC)
  {
    var t := SortBy(s, kB, leB);
    var u := SortBy(t, kA, leA);
    SortByProperties(s, kB, leB);
    SortByProperties(t, kA, leA);
    forall i, j | 0 <= i < j < |u| ensures leC(kC(u[i]), kC(u[j])) {
      if kA(u[i]) == kA(u[j]) {
        var a := kA(u[i]);
        KeyFilterKeepsSorted(t, kA, a, kB, leB);
        assert KeyFilter(u, kA, a) == KeyFilter(t, kA, a);
        SortedWithinClass(u, kA, a, kB, leB, i, j);
      }
      CombinedLe(kA, leA, kB, leB, kC, leC, u[i], u[j]);
    }
    forall c ensures KeyFilter(u, kC, c) == KeyFilter(s, kC, c) {
      if x :| kC(x) == c {
        var a, b := kA(x), kB(x);
        assert forall y :: kC(y) == c <==> kA(y) == a && kB(y) == b;
        KeyFilterNested(u, kA, a, kB, b, kC, c);
        KeyFilterNested(t, kA, a, kB, b, kC, c);
        KeyFilterNested(t, kB, b, kA, a, kC, c);
        KeyFilterNested(s, kB, b, kA, a, kC, c);
        KeyFilterNested(s, kA, a, kB, b, kC, c);
        assert KeyFilter(u, kA, a) == KeyFilter(t, kA, a);
        assert KeyFilter(t, kB, b) == KeyFilter(s, kB, b);
      } else {
        KeyFilterNone(u, kC, c);
        KeyFilterNone(s, kC, c);
      }
    }
    IsSortBy(s, u, kC, leC);
  }

  lemma CombinedLe<T, A, B, C>(kA: T -> A, leA: (A, A) -> bool, kB: T -> B, leB: (B, B) -> bool,
                               kC: T -> C, leC: (C, C) -> bool, x: T, y: T)
    requires forall x, y :: leC(kC(x), kC(y)) <==> leA(kA(x), kA(y)) && (kA(x) == kA(y) ==> leB(kB(x), kB(y)))
    requires leA(kA(x), kA(y)) && (kA(x) == kA(y) ==> leB(kB(x), kB(y)))
    ensures leC(kC(x), kC(y))
  {
  }

  /** In-place stable insertion sort by adjacent swaps. */
  method InsertionSort<T, K(!new)>(a: array<T>, key: T -> K, le: (K, K) -> bool)
    requires TotalOrder(le)
    modifies a
    ensures a[..] == SortBy(old(a[..]), key, le)
  {
    var i := 0;
    while i < a.Length
      invariant 0 <= i <= a.Length
      invariant SortedBy(a[..i], key, le)
      invariant SameKeyFilters(a[..], old(a[..]), key)
    {
      SinkLast(a, i, key, le);
      i := i + 1;
    }
    IsSortBy(old(a[..]), a[..], key, le);
  }

  /** One pass of the insertion sort: a[i] moves left past every element
      whose key is strictly greater, so equal keys keep their order. */
  method SinkLast<T, K(!new)>(a: array<T>, i: nat, key: T -> K, le: (K, K) -> bool)
    requires TotalOrder(le) && i < a.Length && SortedBy(a[..i], key, le)
    modifies a
    ensures a[..i + 1] == Insert(old(a[..i]), old(a[i]), key, le)
    ensures a[i + 1..] == old(a[i + 1..])
    ensures SortedBy(a[..i + 1], key, le)
    ensures SameKeyFilters(a[..], old(a[..]), key)
  {
    ghost var s, x, rest := a[..i], a[i], a[i + 1..];
    ghost var original := a[..];
    assert original == s + [x] + rest;
    assert a[..] == s[..i] + [x] + s[i..] + rest;
    var j := i;
    while j > 0 && !le(key(a[j - 1]), key(a[j]))
      invariant 0 <= j <= i < a.Length
      invariant a[..] == s[..j] + [x] + s[j..] + rest
      invariant forall q :: j <= q < i ==> !le(key(s[q]), key(x))
    {
      SwapStep(s, x, rest, j);
      a[j - 1], a[j] := a[j], a[j - 1];
      j := j - 1;
    }
    SinkLastDone(s, x, rest, j, key, le);
    assert a[..i + 1] == a[..][..|s| + 1] && a[i + 1..] == a[..][|s| + 1..];
  }

  lemma SwapStep<T>(s: seq<T>, x: T, rest: seq<T>, j: nat)
    requires 0 < j <= |s|
    ensures var u := s[..j] + [x] + s[j..] + rest;
      u[j - 1 := x][j := s[j - 1]] == s[..j - 1] + [x] + s[j - 1..] + rest
  {
    var u := s[..j] + [x] + s[j..] + rest;
    var v := s[..j - 1] + [x] + s[j - 1..] + rest;
    assert |u[j - 1 := x][j := s[j - 1]]| == |v|;
    forall k | 0 <= k < |v| ensures u[j - 1 := x][j := s[j - 1]][k] == v[k] {
      if j < k <= |s| {
        assert v[k] == s[k - 1] && u[k] == s[k - 1];
      } else if k > |s| {
        assert v[k] == rest[k - |s| - 1] && u[k] == rest[k - |s| - 1];
      }
    }
  }

  /** Where the sink stops, the array holds the insertion of x into s. */
  lemma SinkLastDone<T, K(!new)>(s: seq<T>, x: T, rest: seq<T>, j: nat, key: T -> K, le: (K, K) -> bool)
    requires TotalOrder(le) && SortedBy(s, key, le) && j <= |s|
    requires j == 0 || le(key(s[j - 1]), key(x))
    requires forall q :: j <= q < |s| ==> !le(key(s[q]), key(x))
    ensures var u := s[..j] + [x] + s[j..] + rest;
      && u[..|s| + 1] == Insert(s, x, key, le)
      && u[|s| + 1..] == rest
      && SortedBy(u[..|s| + 1], key, le)
      && SameKeyFilters(u, s + [x] + rest, key)
  {
    var u := s[..j] + [x] + s[j..] + rest;
    InsertAt(s, x, j, key, le);
    assert u[..|s| + 1] == s[..j] + [x] + s[j..];
    assert u == u[..|s| + 1] + rest;
    InsertSorted(s, x, key, le);
    InsertKeepsKeyFilters(s, x, key, le);
    SameKeyFiltersAppend(u[..|s| + 1], s + [x], rest, key);
  }

  /** Appending the same tail keeps equal key classes equal. */
  lemma SameKeyFiltersAppend<T, K(!new)>(u: seq<T>, v: seq<T>, w: seq<T>, key: T -> K)
    requires SameKeyFilters(u, v, key)
    ensures SameKeyFilters(u + w, v + w, key)
  {
    forall k ensures KeyFilter(u + w, key, k) == KeyFilter(v + w, key, k) {
      KeyFilterAppend(u, w, key, k);
      KeyFilterAppend(v, w, key, k);
    }
  }

  /** Insert places x right after the last element whose key is not above
      key(x), when every later element's key is above it. */
  lemma {:induction false} InsertAt<T, K>(s: seq<T>, x: T, j: nat, key: T -> K, le: (K, K) -> bool)
    requires j <= |s| && (j == 0 || le(key(s[j - 1]), key(x)))
    requires forall q :: j <= q < |s| ==> !le(key(s[q]), key(x))
    ensures Insert(s, x, key, le) == s[..j] + [x] + s[j..]
    decreases |s| - j
  {
    if j < |s| {
      var s' := s[..|s| - 1];
      InsertAt(s', x, j, key, le);
      assert s'[..j] == s[..j] && s'[j..] + [s[|s| - 1]] == s[j..];
    } else {
      assert s[..j] == s && s[j..] == [];
    }
  }

  // ---- sorting a rearrangement ----

  /** No element occurs twice, and no two different elements share a key. */
  ghost predicate UniqueKeys<T(!new), K>(m: multiset<T>, key: T -> K) {
    && (forall x :: m[x] <= 1)
    && (forall x, y :: x in m && y in m && key(x) == key(y) ==> x == y)
  }

  /** Keys that differ position by position make the keys unique. */
  lemma {:induction false} UniqueKeysOfDistinct<T(!new), K>(u: seq<T>, key: T -> K)
    requires forall i, j :: 0 <= i < j < |u| ==> key(u[i]) != key(u[j])
    ensures UniqueKeys(multiset(u), key)
  {
    if u != [] {
      var u', z := u[..|u| - 1], u[|u| - 1];
      assert u == u' + [z];
      assert forall i, j :: 0 <= i < j < |u'| ==> key(u'[i]) != key(u'[j]) by {
        forall i, j | 0 <= i < j < |u'| ensures key(u'[i]) != key(u'[j]) {
          assert u'[i] == u[i] && u'[j] == u[j];
        }
      }
      UniqueKeysOfDistinct(u', key);
      forall x, y | x in multiset(u) && y in multiset(u) && key(x) == key(y) ensures x == y {
        var i :| 0 <= i < |u| && u[i] == x;
        var j :| 0 <= j < |u| && u[j] == y;
      }
    }
  }

  /** Part of a multiset with unique keys has unique keys. */
  lemma UniqueKeysSub<T(!new), K>(m: multiset<T>, n: multiset<T>, key: T -> K)
    requires m <= n && UniqueKeys(n, key)
    ensures UniqueKeys(m, key)
  {
    forall x ensures m[x] <= 1 {
      assert m[x] <= n[x];
    }
  }

  /** With unique keys, a key class holds at most one element. */
  lemma {:induction false} KeyFilterAtMostOne<T(!new), K>(u: seq<T>, key: T -> K, k: K)
    requires UniqueKeys(multiset(u), key)
    ensures |KeyFilter(u, key, k)| <= 1
  {
    if u != [] {
      var u', z := u[..|u| - 1], u[|u| - 1];
      assert u == u' + [z];
      UniqueKeysSub(multiset(u'), multiset(u), key);
      KeyFilterAtMostOne(u', key, k);
      var f := KeyFilter(u', key, k);
      if key(z) == k && f != [] {
        // f[0] and z would be two occurrences of one element
        KeyFilterMembers(u', key, k, f[0]);
        assert false;
      }
    }
  }

  /** Two rearrangements of one multiset with unique keys have the same key
      classes. */
  lemma SameKeyFiltersOfUnique<T(!new), K(!new)>(u: seq<T>, v: seq<T>, key: T -> K)
    requires UniqueKeys(multiset(u), key) && multiset(u) == multiset(v)
    ensures SameKeyFilters(u, v, key)
  {
    forall k ensures KeyFilter(u, key, k) == KeyFilter(v, key, k) {
      var a, b := KeyFilter(u, key, k), KeyFilter(v, key, k);
      KeyFilterAtMostOne(u, key, k);
      KeyFilterAtMostOne(v, key, k);
      if a != [] {
        KeyFilterMembers(u, key, k, a[0]);
        KeyFilterMembers(v, key, k, a[0]);
        assert a[0] in multiset(v);
      }
      if b != [] {
        KeyFilterMembers(v, key, k, b[0]);
        KeyFilterMembers(u, key, k, b[0]);
        assert b[0] in multiset(u);
      }
    }
  }

  /** With unique keys, the stable sort depends only on which elements there
      are, not on their input order. */
  lemma SortByOfRearrangement<T(!new), K(!new)>(u: seq<T>, v: seq<T>, key: T -> K, le: (K, K) -> bool)
    requires TotalOrder(le) && UniqueKeys(multiset(u), key) && multiset(u) == multiset(v)
    ensures SortBy(u, key, le) == SortBy(v, key, le)
  {
    SortByProperties(u, key, le);
    SameKeyFiltersOfUnique(u, v, key);
    IsSortBy(v, SortBy(u, key, le), key, le);
  }
}
