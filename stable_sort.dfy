/** A stable sort by a real-valued key, the behaviour LINQ's `OrderBy` promises: the result is
    in non-decreasing key order, is a permutation of the input, and elements with equal keys
    keep their input order. `SortBy` computes it by insertion; `StableSortIsUnique` shows that
    those three properties determine the result, so any stable sort (LINQ's own included)
    yields the same sequence. */
module StableSort {

  /** No element occurs twice. */
  ghost predicate Distinct<T>(s: seq<T>) {
    forall i, j :: 0 <= i < j < |s| ==> s[i] != s[j]
  }

  /** The values occurring in `s`. */
  ghost function Elements<T>(s: seq<T>): set<T> {
    set x | x in s
  }

  /** Keys never decrease along `s`. */
  ghost predicate SortedBy<T>(s: seq<T>, key: T -> real) {
    forall i, j :: 0 <= i < j < |s| ==> key(s[i]) <= key(s[j])
  }

  /** The elements of `s` whose key is `k`, in their order in `s`. */
  function KeyFilter<T>(s: seq<T>, key: T -> real, k: real): seq<T>
  {
    if |s| == 0 then []
    else (if key(s[0]) == k then [s[0]] else []) + KeyFilter(s[1..], key, k)
  }

  /** How many elements of `s` have a key below `k`. */
  function CountBelow<T>(s: seq<T>, key: T -> real, k: real): nat
  {
    if |s| == 0 then 0
    else (if key(s[0]) < k then 1 else 0) + CountBelow(s[1..], key, k)
  }

  /** `List.IndexOf`: the index of the first occurrence of `x`, or -1 when there is none. */
  function IndexOf<T(==)>(s: seq<T>, x: T): (i: int)
    ensures x !in s <==> i == -1
    ensures x in s ==> 0 <= i < |s| && s[i] == x && x !in s[..i]
  {
    if |s| == 0 then -1
    else if s[0] == x then 0
    else
      var j := IndexOf(s[1..], x);
      if j < 0 then -1
      else
        assert s[..j + 1] == [s[0]] + s[1..][..j];
        j + 1
  }

  /** Puts `x` in front of the first element whose key is not below `x`'s. */
  function Insert<T>(x: T, s: seq<T>, key: T -> real): (r: seq<T>)
    ensures |r| == |s| + 1
    ensures multiset(r) == multiset(s) + multiset{x}
  {
    if |s| == 0 || key(x) <= key(s[0]) then [x] + s
    else
      assert s == [s[0]] + s[1..];
      [s[0]] + Insert(x, s[1..], key)
  }

  /** Stable insertion sort: the head goes in front of every equal-keyed element of the sorted
      tail, which all come after it in `s`. */
  function SortBy<T>(s: seq<T>, key: T -> real): (r: seq<T>)
    ensures |r| == |s|
    ensures multiset(r) == multiset(s)
  {
    if |s| == 0 then []
    else
      assert s == [s[0]] + s[1..];
      Insert(s[0], SortBy(s[1..], key), key)
  }

  lemma KeyFilterCons<T>(x: T, s: seq<T>, key: T -> real, k: real)
    ensures KeyFilter([x] + s, key, k) == (if key(x) == k then [x] else []) + KeyFilter(s, key, k)
  {
  }

  lemma CountBelowCons<T>(x: T, s: seq<T>, key: T -> real, k: real)
    ensures CountBelow([x] + s, key, k) == (if key(x) < k then 1 else 0) + CountBelow(s, key, k)
  {
  }

  /** An element is in the filter for `k` exactly when it is in `s` and has key `k`. */
  lemma {:induction false} KeyFilterMembers<T>(s: seq<T>, key: T -> real, k: real, x: T)
    ensures x in KeyFilter(s, key, k) <==> x in s && key(x) == k
  {
    if |s| > 0 {
      KeyFilterMembers(s[1..], key, k, x);
      assert s == [s[0]] + s[1..];
    }
  }

  /** An element no greater than the head of a sorted sequence can go in front of it. */
  lemma ConsSorted<T>(x: T, s: seq<T>, key: T -> real)
    requires SortedBy(s, key) && (|s| == 0 || key(x) <= key(s[0]))
    ensures SortedBy([x] + s, key)
  {
  }

  /** A lower bound on the keys of `u` and on `key(x)` bounds every key of a rearrangement of
      `u` with `x` added. */
  lemma BoundedByElements<T>(t: seq<T>, u: seq<T>, x: T, key: T -> real, b: real)
    requires multiset(t) == multiset(u) + multiset{x}
    requires b <= key(x) && forall j :: 0 <= j < |u| ==> b <= key(u[j])
    ensures forall i :: 0 <= i < |t| ==> b <= key(t[i])
  {
    forall i | 0 <= i < |t| ensures b <= key(t[i]) {
      assert t[i] in multiset(t);
      if t[i] != x {
        assert t[i] in multiset(u);
        var j :| 0 <= j < |u| && u[j] == t[i];
      }
    }
  }

  lemma {:induction false} InsertSorted<T>(x: T, s: seq<T>, key: T -> real)
    requires SortedBy(s, key)
    ensures SortedBy(Insert(x, s, key), key)
  {
    if |s| == 0 || key(x) <= key(s[0]) {
      ConsSorted(x, s, key);
    } else {
      var u := s[1..];
      assert SortedBy(u, key) && forall j :: 0 <= j < |u| ==> key(s[0]) <= key(u[j]) by {
        forall j | 0 <= j < |u| ensures key(s[0]) <= key(u[j]) && u[j] == s[j + 1] {
        }
      }
      InsertSorted(x, u, key);
      var t := Insert(x, u, key);
      BoundedByElements(t, u, x, key, key(s[0]));
      ConsSorted(s[0], t, key);
    }
  }

  /** `SortBy` orders by non-decreasing key. */
  lemma {:induction false} SortBySorted<T>(s: seq<T>, key: T -> real)
    ensures SortedBy(SortBy(s, key), key)
  {
    if |s| > 0 {
      SortBySorted(s[1..], key);
      InsertSorted(s[0], SortBy(s[1..], key), key);
    }
  }

  /** Two adjacent elements with different keys can trade places without changing any
      filter. */
  lemma KeyFilterSwap<T>(a: T, b: T, u: seq<T>, key: T -> real, k: real)
    requires key(a) != key(b)
    ensures KeyFilter([a] + ([b] + u), key, k) == KeyFilter([b] + ([a] + u), key, k)
  {
  }

  lemma {:induction false} InsertKeyFilter<T>(x: T, s: seq<T>, key: T -> real, k: real)
    ensures KeyFilter(Insert(x, s, key), key, k) == KeyFilter([x] + s, key, k)
  {
    if |s| > 0 && key(s[0]) < key(x) {
      var t := Insert(x, s[1..], key);
      assert Insert(x, s, key) == [s[0]] + t;
      assert s == [s[0]] + s[1..];
      InsertKeyFilter(x, s[1..], key, k);
      KeyFilterCons(s[0], t, key, k);
      KeyFilterCons(s[0], [x] + s[1..], key, k);
      KeyFilterSwap(s[0], x, s[1..], key, k);
    }
  }

  /** Stability: for every key, the elements with that key are in the same order after the
      sort as before it. */
  lemma {:induction false} SortByStable<T>(s: seq<T>, key: T -> real, k: real)
    ensures KeyFilter(SortBy(s, key), key, k) == KeyFilter(s, key, k)
  {
    if |s| > 0 {
      SortByStable(s[1..], key, k);
      InsertKeyFilter(s[0], SortBy(s[1..], key), key, k);
      KeyFilterCons(s[0], SortBy(s[1..], key), key, k);
    }
  }

  lemma {:induction false} InsertCountBelow<T>(x: T, s: seq<T>, key: T -> real, k: real)
    ensures CountBelow(Insert(x, s, key), key, k) == CountBelow([x] + s, key, k)
  {
    if |s| == 0 || key(x) <= key(s[0]) {
    } else {
      InsertCountBelow(x, s[1..], key, k);
      CountBelowCons(s[0], Insert(x, s[1..], key), key, k);
      CountBelowCons(x, s[1..], key, k);
      CountBelowCons(x, s, key, k);
      assert s == [s[0]] + s[1..];
      CountBelowCons(s[0], s[1..], key, k);
    }
  }

  lemma {:induction false} SortByCountBelow<T>(s: seq<T>, key: T -> real, k: real)
    ensures CountBelow(SortBy(s, key), key, k) == CountBelow(s, key, k)
  {
    if |s| > 0 {
      SortByCountBelow(s[1..], key, k);
      InsertCountBelow(s[0], SortBy(s[1..], key), key, k);
      CountBelowCons(s[0], SortBy(s[1..], key), key, k);
    }
  }

  /** The tail of a sorted sequence is sorted, and its elements are not below the head. */
  lemma SortedTail<T>(r: seq<T>, key: T -> real, x: T)
    requires SortedBy(r, key) && |r| > 0 && x in r[1..]
    ensures SortedBy(r[1..], key) && key(r[0]) <= key(x)
  {
  }

  /** In a sorted sequence, the first occurrence of `x` comes after every element with a
      smaller key and after the elements with `x`'s key that precede it. */
  lemma {:induction false} SortedIndexOf<T>(r: seq<T>, key: T -> real, x: T)
    requires SortedBy(r, key) && x in r
    ensures IndexOf(r, x) == CountBelow(r, key, key(x)) + IndexOf(KeyFilter(r, key, key(x)), x)
  {
    var k := key(x);
    if r[0] == x {
      CountBelowZero(r, key, k);
    } else {
      var t := r[1..];
      StepPastHead(r, x);
      SortedTail(r, key, x);
      SortedIndexOf(t, key, x);
      KeyFilterMembers(t, key, k, x);
      assert r == [r[0]] + t;
      CountBelowCons(r[0], t, key, k);
      KeyFilterCons(r[0], t, key, k);
      assert CountBelow(r, key, k) == (if key(r[0]) < k then 1 else 0) + CountBelow(t, key, k);
      assert KeyFilter(r, key, k) == (if key(r[0]) == k then [r[0]] else []) + KeyFilter(t, key, k);
      assert IndexOf(r, x) == IndexOf(t, x) + 1;
      if key(r[0]) == k {
        IndexOfCons(r[0], KeyFilter(t, key, k), x);
        assert IndexOf(KeyFilter(r, key, k), x) == IndexOf(KeyFilter(t, key, k), x) + 1;
      } else {
        assert KeyFilter(r, key, k) == KeyFilter(t, key, k);
      }
    }
  }

  /** A sorted sequence has no element below the key of its head. */
  lemma CountBelowZero<T>(r: seq<T>, key: T -> real, k: real)
    requires SortedBy(r, key) && |r| > 0 && key(r[0]) == k
    ensures CountBelow(r, key, k) == 0
  {
    assert forall i :: 0 <= i < |r| ==> k <= key(r[i]) by {
      forall i | 0 <= i < |r| ensures k <= key(r[i]) {
        if i > 0 {
          assert key(r[0]) <= key(r[i]);
        }
      }
    }
    CountBelowAll(r, key, k);
  }

  lemma {:induction false} CountBelowAll<T>(r: seq<T>, key: T -> real, k: real)
    requires forall i :: 0 <= i < |r| ==> k <= key(r[i])
    ensures CountBelow(r, key, k) == 0
  {
    if |r| > 0 {
      CountBelowAll(r[1..], key, k);
    }
  }

  /** The position of `x` in the stable sort of `s`, computed from `s` alone: the number of
      elements with a smaller key plus the number of equal-keyed elements before `x` in `s`. */
  lemma SortByIndexOf<T>(s: seq<T>, key: T -> real, x: T)
    requires x in s
    ensures IndexOf(SortBy(s, key), x) == CountBelow(s, key, key(x)) + IndexOf(KeyFilter(s, key, key(x)), x)
  {
    var r := SortBy(s, key);
    assert x in multiset(s);
    SortBySorted(s, key);
    SortedIndexOf(r, key, x);
    SortByCountBelow(s, key, key(x));
    SortByStable(s, key, key(x));
  }

  /** Two sorted sequences with the same filters start with the same element: each head lies
      in the other sequence, so neither head key is below the other, and then each head is
      the first of the same filter. */
  lemma SameHeads<T>(a: seq<T>, b: seq<T>, key: T -> real)
    requires |a| > 0 && |b| > 0 && SortedBy(a, key) && SortedBy(b, key)
    requires forall k :: KeyFilter(a, key, k) == KeyFilter(b, key, k)
    ensures a[0] == b[0]
  {
    var ka, kb := key(a[0]), key(b[0]);
    HeadInFilter(a, key);
    assert a[0] in KeyFilter(b, key, ka);
    KeyFilterMembers(b, key, ka, a[0]);
    HeadIsMin(b, key, a[0]);
    HeadInFilter(b, key);
    assert b[0] in KeyFilter(a, key, kb);
    KeyFilterMembers(a, key, kb, b[0]);
    HeadIsMin(a, key, b[0]);
    assert ka == kb;
    FilterHead(a, key);
    FilterHead(b, key);
    assert KeyFilter(a, key, ka)[0] == a[0];
    assert KeyFilter(b, key, kb)[0] == b[0];
  }

  /** The head of a sorted sequence has the smallest key. */
  lemma HeadIsMin<T>(s: seq<T>, key: T -> real, y: T)
    requires SortedBy(s, key) && y in s
    ensures key(s[0]) <= key(y)
  {
  }

  /** The filter for the head's key starts with the head. */
  lemma FilterHead<T>(s: seq<T>, key: T -> real)
    requires |s| > 0
    ensures KeyFilter(s, key, key(s[0])) == [s[0]] + KeyFilter(s[1..], key, key(s[0]))
  {
  }

  /** Removing the same head from two sequences with the same filters leaves tails with the
      same filters. */
  lemma SameTailFilters<T>(a: seq<T>, b: seq<T>, key: T -> real, k: real)
    requires |a| > 0 && |b| > 0 && a[0] == b[0]
    requires KeyFilter(a, key, k) == KeyFilter(b, key, k)
    ensures KeyFilter(a[1..], key, k) == KeyFilter(b[1..], key, k)
  {
    assert a == [a[0]] + a[1..];
    assert b == [b[0]] + b[1..];
    KeyFilterCons(a[0], a[1..], key, k);
    KeyFilterCons(b[0], b[1..], key, k);
    var f := if key(a[0]) == k then [a[0]] else [];
    assert KeyFilter(a[1..], key, k) == (f + KeyFilter(a[1..], key, k))[|f|..];
    assert KeyFilter(b[1..], key, k) == (f + KeyFilter(b[1..], key, k))[|f|..];
  }

  /** Two sorted sequences that agree on every key's filter are equal. */
  lemma {:induction false} SortedFiltersDetermine<T>(a: seq<T>, b: seq<T>, key: T -> real)
    requires SortedBy(a, key) && SortedBy(b, key)
    requires forall k :: KeyFilter(a, key, k) == KeyFilter(b, key, k)
    ensures a == b
    decreases |a|
  {
    if |a| > 0 {
      HeadInFilter(a, key);
      KeyFilterMembers(b, key, key(a[0]), a[0]);
    }
    if |b| > 0 {
      HeadInFilter(b, key);
      KeyFilterMembers(a, key, key(b[0]), b[0]);
    }
    if |a| == 0 {
      assert b == [];
    } else {
      SameHeads(a, b, key);
      forall k ensures KeyFilter(a[1..], key, k) == KeyFilter(b[1..], key, k) {
        SameTailFilters(a, b, key, k);
      }
      SortedFiltersDetermine(a[1..], b[1..], key);
      assert a == [a[0]] + a[1..];
      assert b == [b[0]] + b[1..];
    }
  }

  lemma HeadInFilter<T>(s: seq<T>, key: T -> real)
    requires |s| > 0
    ensures s[0] in KeyFilter(s, key, key(s[0]))
  {
  }

  /** A stable sort is unique: any sequence in key order that keeps, for every key, the input
      order of the elements with that key is `SortBy`'s result. */
  lemma StableSortIsUnique<T>(s: seq<T>, r: seq<T>, key: T -> real)
    requires SortedBy(r, key)
    requires forall k :: KeyFilter(r, key, k) == KeyFilter(s, key, k)
    ensures r == SortBy(s, key)
  {
    SortBySorted(s, key);
    forall k ensures KeyFilter(r, key, k) == KeyFilter(SortBy(s, key), key, k) {
      SortByStable(s, key, k);
    }
    SortedFiltersDetermine(r, SortBy(s, key), key);
  }

  lemma IndexOfCons<T>(y: T, s: seq<T>, x: T)
    requires x != y
    ensures IndexOf([y] + s, x) == if x in s then IndexOf(s, x) + 1 else -1
  {
  }

  /** Filtering keeps the relative order of first occurrences. */
  lemma {:induction false} KeyFilterKeepsOrder<T>(s: seq<T>, key: T -> real, a: T, b: T)
    requires a in s && b in s && key(a) == key(b)
    requires IndexOf(s, a) < IndexOf(s, b)
    ensures IndexOf(KeyFilter(s, key, key(a)), a) < IndexOf(KeyFilter(s, key, key(a)), b)
  {
    var k := key(a);
    var t := s[1..];
    if s[0] == a {
      FilterStartsWith(s, key, b);
    } else {
      StepPastHead(s, a);
      StepPastHead(s, b);
      KeyFilterKeepsOrder(t, key, a, b);
      FilterStepPastHead(s, key, a);
      FilterStepPastHead(s, key, b);
    }
  }

  lemma FilterStartsWith<T>(s: seq<T>, key: T -> real, b: T)
    requires |s| > 0 && b in s && s[0] != b && key(b) == key(s[0])
    ensures IndexOf(KeyFilter(s, key, key(s[0])), s[0]) == 0
    ensures IndexOf(KeyFilter(s, key, key(s[0])), b) > 0
  {
    var k := key(s[0]);
    assert s == [s[0]] + s[1..];
    KeyFilterCons(s[0], s[1..], key, k);
    KeyFilterMembers(s[1..], key, k, b);
    IndexOfCons(s[0], KeyFilter(s[1..], key, k), b);
  }

  lemma FilterStepPastHead<T>(s: seq<T>, key: T -> real, x: T)
    requires |s| > 0 && x in s[1..] && s[0] != x
    ensures IndexOf(KeyFilter(s, key, key(x)), x) ==
      IndexOf(KeyFilter(s[1..], key, key(x)), x) + (if key(s[0]) == key(x) then 1 else 0)
  {
    var k := key(x);
    var t := s[1..];
    assert s == [s[0]] + t;
    KeyFilterCons(s[0], t, key, k);
    if key(s[0]) == k {
      assert KeyFilter(s, key, k) == [s[0]] + KeyFilter(t, key, k);
      KeyFilterMembers(t, key, k, x);
      IndexOfCons(s[0], KeyFilter(t, key, k), x);
    } else {
      assert KeyFilter(s, key, k) == KeyFilter(t, key, k);
    }
  }

  lemma StepPastHead<T>(s: seq<T>, x: T)
    requires x in s && s[0] != x
    ensures x in s[1..] && IndexOf(s, x) == IndexOf(s[1..], x) + 1
  {
  }

  /** In a sequence sorted by key, an element with a smaller key comes strictly earlier. */
  lemma SortedKeyLess<T>(r: seq<T>, key: T -> real, i: int, j: int)
    requires SortedBy(r, key) && 0 <= i < |r| && 0 <= j < |r| && key(r[i]) < key(r[j])
    ensures i < j
  {
  }

  /** In a duplicate-free sequence the first occurrence of each element is where it is. */
  lemma DistinctIndexOf<T>(r: seq<T>)
    requires Distinct(r)
    ensures forall i :: 0 <= i < |r| ==> IndexOf(r, r[i]) == i
  {
  }

  /** Each value occurs at most once in a sequence without duplicates. */
  lemma {:induction false} DistinctMultiplicity<T>(s: seq<T>, x: T)
    requires Distinct(s)
    ensures multiset(s)[x] <= 1
  {
    if |s| > 0 {
      assert s == [s[0]] + s[1..];
      assert Distinct(s[1..]) by {
        forall i, j | 0 <= i < j < |s[1..]| ensures s[1..][i] != s[1..][j] {
          assert s[1..][i] == s[i + 1] && s[1..][j] == s[j + 1];
        }
      }
      DistinctMultiplicity(s[1..], x);
      assert s[0] !in s[1..] by {
        forall j | 0 <= j < |s[1..]| ensures s[1..][j] != s[0] {
          assert s[1..][j] == s[j + 1];
        }
      }
    }
  }

  /** A permutation of a sequence without duplicates has none either. */
  lemma PermutationKeepsDistinct<T>(s: seq<T>, r: seq<T>)
    requires Distinct(s) && multiset(r) == multiset(s)
    ensures Distinct(r)
  {
    forall i, j | 0 <= i < j < |r| ensures r[i] != r[j] {
      if r[i] == r[j] {
        assert r == r[..j] + r[j..];
        assert r[i] in multiset(r[..j]);
        assert r[j] in multiset(r[j..]);
        assert multiset(r)[r[i]] == multiset(r[..j])[r[i]] + multiset(r[j..])[r[i]];
        DistinctMultiplicity(s, r[i]);
      }
    }
  }

  /** A sequence without duplicates has as many distinct elements as it has entries. */
  lemma {:induction false} DistinctCardinality<T>(s: seq<T>)
    requires Distinct(s)
    ensures |Elements(s)| == |s|
  {
    if |s| > 0 {
      var t := s[1..];
      assert Distinct(t) by {
        forall i, j | 0 <= i < j < |t| ensures t[i] != t[j] {
          assert t[i] == s[i + 1] && t[j] == s[j + 1];
        }
      }
      DistinctCardinality(t);
      assert s[0] !in t by {
        forall j | 0 <= j < |t| ensures t[j] != s[0] {
          assert t[j] == s[j + 1];
        }
      }
      assert Elements(s) == Elements(t) + {s[0]} by {
        assert s == [s[0]] + t;
      }
    }
  }
}
