/** Order-keeping filters, as Python list comprehensions with an `if` and
    loops that append the rows they keep. */
module Lists {
  import opened Sorting

  /** The elements of s that satisfy keep, in their order in s. */
  function Filter<T>(s: seq<T>, keep: T -> bool): seq<T>
  {
    if s == [] then []
    else Filter(s[..|s| - 1], keep) + (if keep(s[|s| - 1]) then [s[|s| - 1]] else [])
  }

  lemma {:induction false} FilterMembers<T>(s: seq<T>, keep: T -> bool, x: T)
    ensures x in Filter(s, keep) <==> x in s && keep(x)
  {
    if s != [] {
      assert s == s[..|s| - 1] + [s[|s| - 1]];
      FilterMembers(s[..|s| - 1], keep, x);
    }
  }

  /** Filtering never reorders: a sequence ordered by a key stays ordered. */
  lemma {:induction false} FilterKeepsSorted<T, K>(s: seq<T>, keep: T -> bool, key: T -> K, le: (K, K) -> bool)
    requires SortedBy(s, key, le)
    ensures SortedBy(Filter(s, keep), key, le)
  {
    if s != [] {
      var s', x := s[..|s| - 1], s[|s| - 1];
      FilterKeepsSorted(s', keep, key, le);
      if keep(x) {
        var f := Filter(s', keep);
        forall i | 0 <= i < |f| ensures le(key(f[i]), key(x)) {
          FilterMembers(s', keep, f[i]);
          var m :| 0 <= m < |s'| && s'[m] == f[i];
        }
      }
    }
  }

  /** A filter that every element passes changes nothing. */
  lemma {:induction false} FilterKeepsAll<T>(s: seq<T>, keep: T -> bool)
    requires forall i :: 0 <= i < |s| ==> keep(s[i])
    ensures Filter(s, keep) == s
  {
    if s != [] {
      FilterKeepsAll(s[..|s| - 1], keep);
      assert s == s[..|s| - 1] + [s[|s| - 1]];
    }
  }

  lemma {:induction false} FilterAppend<T>(s: seq<T>, t: seq<T>, keep: T -> bool)
    ensures Filter(s + t, keep) == Filter(s, keep) + Filter(t, keep)
    decreases |t|
  {
    if t == [] {
      assert s + t == s;
    } else {
      assert (s + t)[..|s + t| - 1] == s + t[..|t| - 1];
      FilterAppend(s, t[..|t| - 1], keep);
    }
  }

  /** The elements of s, each passed through g. */
  function Map<T, U>(s: seq<T>, g: T -> U): seq<U> {
    seq(|s|, i requires 0 <= i < |s| => g(s[i]))
  }

  /** A map that keeps the key commutes with taking a key class. */
  lemma {:induction false} KeyFilterMap<T, K>(s: seq<T>, g: T -> T, key: T -> K, k: K)
    requires forall x :: key(g(x)) == key(x)
    ensures KeyFilter(Map(s, g), key, k) == Map(KeyFilter(s, key, k), g)
  {
    if s != [] {
      var s', x := s[..|s| - 1], s[|s| - 1];
      KeyFilterMap(s', g, key, k);
      assert Map(s, g)[..|s| - 1] == Map(s', g);
      var f := KeyFilter(s', key, k);
      if key(x) == k {
        assert Map(f + [x], g) == Map(f, g) + [g(x)];
      } else {
        assert f + [] == f;
      }
    }
  }

  /** Filtering commutes with taking a key class. */
  lemma {:induction false} KeyFilterOfFilter<T, K>(s: seq<T>, keep: T -> bool, key: T -> K, k: K)
    ensures KeyFilter(Filter(s, keep), key, k) == Filter(KeyFilter(s, key, k), keep)
  {
    if s != [] {
      var s', x := s[..|s| - 1], s[|s| - 1];
      KeyFilterOfFilter(s', keep, key, k);
      var f := Filter(s', keep);
      var c := KeyFilter(s', key, k);
      var kept := if keep(x) then [x] else [];
      KeyFilterAppend(f, kept, key, k);
      if key(x) == k {
        FilterAppend(c, [x], keep);
        assert [x][..0] == [];
        if keep(x) {
          assert kept[..0] == [];
        }
      } else {
        assert c + [] == c;
        if keep(x) {
          assert kept[..0] == [];
        }
      }
    }
  }

  /** A map that keeps the key keeps the order by that key. */
  lemma MapKeepsSorted<T, K>(s: seq<T>, g: T -> T, key: T -> K, le: (K, K) -> bool)
    requires forall x :: key(g(x)) == key(x)
    requires SortedBy(s, key, le)
    ensures SortedBy(Map(s, g), key, le)
  {
    forall i, j | 0 <= i < j < |s| ensures le(key(Map(s, g)[i]), key(Map(s, g)[j])) {
      assert key(g(s[i])) == key(s[i]) && key(g(s[j])) == key(s[j]);
    }
  }

  // ---- rearrangements ----

  /** How often x occurs once filtered. */
  lemma {:induction false} FilterCount<T>(s: seq<T>, keep: T -> bool, x: T)
    ensures multiset(Filter(s, keep))[x] == if keep(x) then multiset(s)[x] else 0
  {
    if s != [] {
      assert s == s[..|s| - 1] + [s[|s| - 1]];
      FilterCount(s[..|s| - 1], keep, x);
    }
  }

  /** Multisets with the same count of every element are equal. */
  lemma SameCounts<T>(a: multiset<T>, b: multiset<T>)
    requires forall x :: a[x] == b[x]
    ensures a == b
  {
  }

  /** Filtering two rearrangements of one multiset gives two rearrangements
      of one multiset. */
  lemma FilterRearranged<T>(s: seq<T>, t: seq<T>, keep: T -> bool)
    requires multiset(s) == multiset(t)
    ensures multiset(Filter(s, keep)) == multiset(Filter(t, keep))
  {
    var a, b := multiset(Filter(s, keep)), multiset(Filter(t, keep));
    forall x ensures a[x] == b[x] {
      FilterCount(s, keep, x);
      FilterCount(t, keep, x);
    }
    SameCounts(a, b);
  }

  /** What a filter keeps is part of what it was given. */
  lemma FilterSubMultiset<T>(s: seq<T>, keep: T -> bool)
    ensures multiset(Filter(s, keep)) <= multiset(s)
  {
    var a := multiset(Filter(s, keep));
    forall x ensures a[x] <= multiset(s)[x] {
      FilterCount(s, keep, x);
    }
  }

  lemma MapAppend<T, U>(s: seq<T>, t: seq<T>, g: T -> U)
    ensures Map(s + t, g) == Map(s, g) + Map(t, g)
  {
  }

  /** Mapping two rearrangements of one multiset gives two rearrangements of
      one multiset. */
  lemma {:induction false} MapRearranged<T, U>(s: seq<T>, t: seq<T>, g: T -> U)
    requires multiset(s) == multiset(t)
    ensures multiset(Map(s, g)) == multiset(Map(t, g))
    decreases |s|
  {
    if s == [] {
      assert |t| == |multiset(t)|;
    } else {
      var s', z := s[..|s| - 1], s[|s| - 1];
      assert s == s' + [z];
      assert z in multiset(t);
      var k :| 0 <= k < |t| && t[k] == z;
      var t' := t[..k] + t[k + 1..];
      assert t == t[..k] + [z] + t[k + 1..];
      assert multiset(s') == multiset(t') by {
        assert multiset(t) == multiset(t') + multiset{z};
        assert multiset(s) == multiset(s') + multiset{z};
        forall x ensures multiset(s')[x] == multiset(t')[x] {
          assert multiset(s)[x] == multiset(t)[x];
        }
      }
      MapRearranged(s', t', g);
      MapAppend(s', [z], g);
      MapAppend(t[..k] + [z], t[k + 1..], g);
      MapAppend(t[..k], [z], g);
      MapAppend(t[..k], t[k + 1..], g);
    }
  }
}
