/**
 * The model of `Array.prototype.sort` with a comparator.
 *
 * `SortBy` sorts by insertion, inserting each element in front of the first element it
 * does not exceed. For every comparator its result is a permutation of the input
 * (`SortBy`); under a total preorder it is sorted (`SortBySorted`), and an element that
 * may precede a later one stays in front of it (`SortByPrecedes`, `SortByStable`).
 * Section 23.1.3.30 of ECMA-262 fixes the result of `sort` only for a consistent
 * comparator (`Consistent`): there it must be the sorted permutation that keeps tied
 * elements in their order, and `SortByIsTheStableSort` proves that this is `SortBy`'s
 * result. For any other comparator the order is the engine's own, and the model's is
 * that of this insertion sort.
 * A comparator is read the JavaScript way: `cmp(a, b) <= 0` means `a` may come first.
 */
module Sorting {

  /** Any two elements are ordered one way or the other. */
  ghost predicate Total<X(!new)>(cmp: (X, X) -> int)
  {
    forall a, b :: cmp(a, b) <= 0 || cmp(b, a) <= 0
  }

  ghost predicate Transitive<X(!new)>(cmp: (X, X) -> int)
  {
    forall a, b, c :: cmp(a, b) <= 0 && cmp(b, c) <= 0 ==> cmp(a, c) <= 0
  }

  /** What a comparator must be for sorting with it to be meaningful. */
  ghost predicate TotalPreorder<X(!new)>(cmp: (X, X) -> int)
  {
    Total(cmp) && Transitive(cmp)
  }

  /** Every element may come before every later one. */
  ghost predicate SortedBy<X>(s: seq<X>, cmp: (X, X) -> int)
  {
    forall i, j :: 0 <= i < j < |s| ==> cmp(s[i], s[j]) <= 0
  }

  /** Inserts `x` in front of the first element of `s` that it does not exceed. */
  function Insert<X>(x: X, s: seq<X>, cmp: (X, X) -> int): (r: seq<X>)
    ensures multiset(r) == multiset(s) + multiset{x}
    ensures |r| == |s| + 1
  {
    if s == [] then [x]
    else if cmp(x, s[0]) <= 0 then [x] + s
    else
      assert s == [s[0]] + s[1..];
      [s[0]] + Insert(x, s[1..], cmp)
  }

  /** The stable sort of `s` by `cmp`. */
  function SortBy<X>(s: seq<X>, cmp: (X, X) -> int): (r: seq<X>)
    ensures multiset(r) == multiset(s)
    ensures |r| == |s|
  {
    if s == [] then []
    else
      assert s == [s[0]] + s[1..];
      Insert(s[0], SortBy(s[1..], cmp), cmp)
  }

  lemma {:induction false} InsertSorted<X(!new)>(x: X, s: seq<X>, cmp: (X, X) -> int)
    requires TotalPreorder(cmp)
    requires SortedBy(s, cmp)
    ensures SortedBy(Insert(x, s, cmp), cmp)
  {
    if s == [] {
    } else if cmp(x, s[0]) <= 0 {
      forall k | 0 <= k < |s| ensures cmp(x, s[k]) <= 0 {
        if k > 0 {
          assert cmp(s[0], s[k]) <= 0;
        }
      }
      SortedCons(x, s, cmp);
    } else {
      assert cmp(s[0], x) <= 0;
      var t := s[1..];
      SortedBy_Tail(s, cmp);
      InsertSorted(x, t, cmp);
      var u := t + [x];
      forall k | 0 <= k < |u| ensures cmp(s[0], u[k]) <= 0 {
        if k < |t| {
          assert u[k] == s[k + 1];
        }
      }
      assert multiset(u) == multiset(t) + multiset{x};
      LowerBoundPermuted(s[0], u, Insert(x, t, cmp), cmp);
      SortedCons(s[0], Insert(x, t, cmp), cmp);
    }
  }

  /** A sorted sequence stays sorted behind an element that may precede all of it. */
  lemma SortedCons<X>(y: X, t: seq<X>, cmp: (X, X) -> int)
    requires SortedBy(t, cmp)
    requires forall k :: 0 <= k < |t| ==> cmp(y, t[k]) <= 0
    ensures SortedBy([y] + t, cmp)
  {
    var r := [y] + t;
    forall i, j | 0 <= i < j < |r| ensures cmp(r[i], r[j]) <= 0 {
      assert r[j] == t[j - 1];
      if i > 0 {
        assert r[i] == t[i - 1];
      }
    }
  }

  /** An element that may precede every element of `u` may precede every element of a permutation of `u`. */
  lemma LowerBoundPermuted<X>(y: X, u: seq<X>, t: seq<X>, cmp: (X, X) -> int)
    requires multiset(t) == multiset(u)
    requires forall k :: 0 <= k < |u| ==> cmp(y, u[k]) <= 0
    ensures forall k :: 0 <= k < |t| ==> cmp(y, t[k]) <= 0
  {
    forall k | 0 <= k < |t| ensures cmp(y, t[k]) <= 0 {
      assert t[k] in multiset(u);
      var m :| 0 <= m < |u| && u[m] == t[k];
    }
  }

  lemma SortedBy_Tail<X>(s: seq<X>, cmp: (X, X) -> int)
    requires s != [] && SortedBy(s, cmp)
    ensures SortedBy(s[1..], cmp)
  {
    forall i, j | 0 <= i < j < |s[1..]| ensures cmp(s[1..][i], s[1..][j]) <= 0 {
      assert s[1..][i] == s[i + 1] && s[1..][j] == s[j + 1];
    }
  }

  /** `SortBy` sorts: with a total preorder, its result is ordered by the comparator. */
  lemma {:induction false} SortBySorted<X(!new)>(s: seq<X>, cmp: (X, X) -> int)
    requires TotalPreorder(cmp)
    ensures SortedBy(SortBy(s, cmp), cmp)
  {
    if s != [] {
      SortBySorted(s[1..], cmp);
      InsertSorted(s[0], SortBy(s[1..], cmp), cmp);
    }
  }

  /** A slice of a sorted sequence is sorted. */
  lemma SortedSlice<X>(s: seq<X>, lo: int, hi: int, cmp: (X, X) -> int)
    requires 0 <= lo <= hi <= |s| && SortedBy(s, cmp)
    ensures SortedBy(s[lo..hi], cmp)
  {
    forall i, j | 0 <= i < j < hi - lo ensures cmp(s[lo..hi][i], s[lo..hi][j]) <= 0 {
      assert s[lo..hi][i] == s[lo + i] && s[lo..hi][j] == s[lo + j];
    }
  }
  /** Sorting keeps elements whose keys are pairwise different pairwise different. */
  lemma {:induction false} SortByKeepsDistinct<X, K>(s: seq<X>, cmp: (X, X) -> int, key: X -> K)
    requires forall a, b :: 0 <= a < b < |s| ==> key(s[a]) != key(s[b])
    ensures forall a, b :: 0 <= a < b < |SortBy(s, cmp)| ==> key(SortBy(s, cmp)[a]) != key(SortBy(s, cmp)[b])
  {
    if s != [] {
      var t := s[1..];
      forall a, b | 0 <= a < b < |t| ensures key(t[a]) != key(t[b]) {
        assert t[a] == s[a + 1] && t[b] == s[b + 1];
      }
      SortByKeepsDistinct(t, cmp, key);
      var u := SortBy(t, cmp);
      forall k | 0 <= k < |u| ensures key(u[k]) != key(s[0]) {
        assert u[k] in multiset(t);
        var m :| 0 <= m < |t| && t[m] == u[k];
        assert t[m] == s[m + 1];
      }
      InsertKeepsDistinct(s[0], u, cmp, key);
    }
  }

  lemma {:induction false} InsertKeepsDistinct<X, K>(x: X, s: seq<X>, cmp: (X, X) -> int, key: X -> K)
    requires forall a, b :: 0 <= a < b < |s| ==> key(s[a]) != key(s[b])
    requires forall k :: 0 <= k < |s| ==> key(s[k]) != key(x)
    ensures forall a, b :: 0 <= a < b < |Insert(x, s, cmp)| ==> key(Insert(x, s, cmp)[a]) != key(Insert(x, s, cmp)[b])
  {
    if s == [] {
    } else if cmp(x, s[0]) <= 0 {
      var r := [x] + s;
      forall a, b | 0 <= a < b < |r| ensures key(r[a]) != key(r[b]) {
        assert r[b] == s[b - 1];
        if a > 0 {
          assert r[a] == s[a - 1];
        }
      }
    } else {
      var t := s[1..];
      forall a, b | 0 <= a < b < |t| ensures key(t[a]) != key(t[b]) {
        assert t[a] == s[a + 1] && t[b] == s[b + 1];
      }
      forall k | 0 <= k < |t| ensures key(t[k]) != key(x) {
        assert t[k] == s[k + 1];
      }
      InsertKeepsDistinct(x, t, cmp, key);
      var u := Insert(x, t, cmp);
      var r := [s[0]] + u;
      forall a, b | 0 <= a < b < |r| ensures key(r[a]) != key(r[b]) {
        assert r[b] == u[b - 1];
        if a == 0 {
          assert u[b - 1] in multiset(t) + multiset{x};
          if u[b - 1] != x {
            assert u[b - 1] in t;
            var m :| 0 <= m < |t| && t[m] == u[b - 1];
            assert t[m] == s[m + 1];
          }
        } else {
          assert r[a] == u[a - 1];
        }
      }
    }
  }

  // ---------------------------------------------------------------------------
  // Stability

  /** `x` sits at an earlier position of `r` than `y`. */
  ghost predicate Precedes<X>(r: seq<X>, x: X, y: X)
  {
    exists i, j :: 0 <= i < j < |r| && r[i] == x && r[j] == y
  }

  /** Where `Insert` puts `x`: in front of the first element it does not exceed. */
  function InsertPos<X>(x: X, s: seq<X>, cmp: (X, X) -> int): nat
  {
    if s == [] || cmp(x, s[0]) <= 0 then 0 else 1 + InsertPos(x, s[1..], cmp)
  }

  /** `Insert` splits `s` at `InsertPos`, and `x` exceeds every element before that point. */
  lemma InsertAt<X>(x: X, s: seq<X>, cmp: (X, X) -> int)
    ensures InsertPos(x, s, cmp) <= |s|
    ensures Insert(x, s, cmp) == s[..InsertPos(x, s, cmp)] + [x] + s[InsertPos(x, s, cmp)..]
    ensures forall k :: 0 <= k < InsertPos(x, s, cmp) ==> cmp(x, s[k]) > 0
  {
    InsertSplit(x, s, cmp);
    InsertPosExceeds(x, s, cmp);
  }

  lemma {:induction false} InsertSplit<X>(x: X, s: seq<X>, cmp: (X, X) -> int)
    ensures InsertPos(x, s, cmp) <= |s|
    ensures Insert(x, s, cmp) == s[..InsertPos(x, s, cmp)] + [x] + s[InsertPos(x, s, cmp)..]
  {
    if s != [] && cmp(x, s[0]) > 0 {
      var t := s[1..];
      InsertSplit(x, t, cmp);
      var p := InsertPos(x, t, cmp);
      assert InsertPos(x, s, cmp) == p + 1;
      assert Insert(x, s, cmp) == [s[0]] + Insert(x, t, cmp);
      ConsSplit(s, t, x, p);
    }
  }

  /** Putting back the head of `s` in front of a split of its tail gives a split of `s`. */
  lemma ConsSplit<X>(s: seq<X>, t: seq<X>, x: X, p: int)
    requires s != [] && t == s[1..] && 0 <= p <= |t|
    ensures [s[0]] + (t[..p] + [x] + t[p..]) == s[..p + 1] + [x] + s[p + 1..]
  {
    assert s[..p + 1] == [s[0]] + t[..p] && s[p + 1..] == t[p..];
  }

  lemma {:induction false} InsertPosExceeds<X>(x: X, s: seq<X>, cmp: (X, X) -> int)
    ensures InsertPos(x, s, cmp) <= |s|
    ensures forall k :: 0 <= k < InsertPos(x, s, cmp) ==> cmp(x, s[k]) > 0
  {
    if s != [] && cmp(x, s[0]) > 0 {
      var t := s[1..];
      InsertPosExceeds(x, t, cmp);
      InsertPosBelow(x, s, t, InsertPos(x, t, cmp), cmp);
    }
  }

  /** One step of `InsertPosExceeds`: `x` exceeds `s[0]` and what it exceeds in `s[1..]`. */
  lemma InsertPosBelow<X>(x: X, s: seq<X>, t: seq<X>, p: int, cmp: (X, X) -> int)
    requires s != [] && t == s[1..] && cmp(x, s[0]) > 0 && 0 <= p <= |t|
    requires forall k :: 0 <= k < p ==> cmp(x, t[k]) > 0
    ensures forall k :: 0 <= k < p + 1 ==> cmp(x, s[k]) > 0
  {
    forall k | 0 <= k < p + 1 ensures cmp(x, s[k]) > 0 {
      if k > 0 {
        assert s[k] == t[k - 1];
      }
    }
  }

  /** Inserting keeps the relative order of the elements already there. */
  lemma {:induction false} InsertKeepsPrecedes<X>(x: X, s: seq<X>, cmp: (X, X) -> int, y: X, z: X)
    requires Precedes(s, y, z)
    ensures Precedes(Insert(x, s, cmp), y, z)
  {
    InsertAt(x, s, cmp);
    var p := InsertPos(x, s, cmp);
    var r := Insert(x, s, cmp);
    var i, j :| 0 <= i < j < |s| && s[i] == y && s[j] == z;
    var i', j' := if i < p then i else i + 1, if j < p then j else j + 1;
    assert r[i'] == y && r[j'] == z;
  }

  /** The inserted element goes in front of every element it does not exceed. */
  lemma InsertPrecedes<X>(x: X, s: seq<X>, cmp: (X, X) -> int, y: X)
    requires y in s && cmp(x, y) <= 0
    ensures Precedes(Insert(x, s, cmp), x, y)
  {
    InsertAt(x, s, cmp);
    var p := InsertPos(x, s, cmp);
    var r := Insert(x, s, cmp);
    var m :| 0 <= m < |s| && s[m] == y;
    assert r[p] == x && r[m + 1] == y;
  }

  /**
   * Sorting keeps in front every element that may precede a later one by the comparator;
   * in particular, elements the comparator ties keep their order.
   */
  lemma {:induction false} SortByPrecedes<X>(s: seq<X>, cmp: (X, X) -> int, a: int, b: int)
    requires 0 <= a < b < |s| && cmp(s[a], s[b]) <= 0
    ensures Precedes(SortBy(s, cmp), s[a], s[b])
  {
    var t := s[1..];
    var u := SortBy(t, cmp);
    assert s[b] == t[b - 1];
    if a == 0 {
      assert s[b] in multiset(u);
      InsertPrecedes(s[0], u, cmp, s[b]);
    } else {
      assert s[a] == t[a - 1];
      SortByPrecedes(t, cmp, a - 1, b - 1);
      InsertKeepsPrecedes(s[0], u, cmp, s[a], s[b]);
    }
  }

  /**
   * Insertion sort is stable. For elements told apart by `key`, an element that may
   * precede a later one (in particular, one tied with it) sits at an earlier position of the
   * result.
   */
  lemma SortByStable<X, K>(s: seq<X>, cmp: (X, X) -> int, key: X -> K, a: int, b: int)
    requires forall i, j :: 0 <= i < j < |s| ==> key(s[i]) != key(s[j])
    requires 0 <= a < b < |s| && cmp(s[a], s[b]) <= 0
    ensures forall i, j ::
      0 <= i < |SortBy(s, cmp)| && 0 <= j < |SortBy(s, cmp)| && SortBy(s, cmp)[i] == s[a] && SortBy(s, cmp)[j] == s[b]
      ==> i < j
  {
    var r := SortBy(s, cmp);
    SortByPrecedes(s, cmp, a, b);
    SortByKeepsDistinct(s, cmp, key);
    var i0, j0 :| 0 <= i0 < j0 < |r| && r[i0] == s[a] && r[j0] == s[b];
    forall i, j | 0 <= i < |r| && 0 <= j < |r| && r[i] == s[a] && r[j] == s[b] ensures i < j {
      // Equal keys in a result whose keys are pairwise different: the same positions.
      assert key(r[i]) == key(r[i0]) && key(r[j]) == key(r[j0]);
    }
  }

  // ---------------------------------------------------------------------------
  // Consistent comparators

  /**
   * A consistent comparator in the sense of `Array.prototype.sort` (section 23.1.3.30 of
   * ECMA-262): a total preorder whose sign flips when the arguments are swapped, so that
   * it ties every element with itself. For such a comparator the standard fixes the result
   * of `sort`; for any other one the order is implementation-defined.
   */
  ghost predicate Consistent<X(!new)>(cmp: (X, X) -> int)
  {
    && TotalPreorder(cmp)
    && forall a, b :: (cmp(a, b) < 0 <==> cmp(b, a) > 0) && (cmp(a, b) == 0 <==> cmp(b, a) == 0)
  }

  /** `r` keeps the order of `s` for every two elements the comparator ties. */
  ghost predicate StableFor<X>(s: seq<X>, r: seq<X>, cmp: (X, X) -> int)
  {
    forall a, b, i, j ::
      && 0 <= a < b < |s| && cmp(s[a], s[b]) == 0
      && 0 <= i < |r| && 0 <= j < |r| && r[i] == s[a] && r[j] == s[b]
      ==> i < j
  }

  /**
   * `r` is what the standard allows a stable sort of `s` to return: a permutation of `s`,
   * sorted by the comparator, that keeps tied elements in their order.
   */
  ghost predicate StableSort<X>(s: seq<X>, r: seq<X>, cmp: (X, X) -> int)
  {
    multiset(r) == multiset(s) && SortedBy(r, cmp) && StableFor(s, r, cmp)
  }

  /** The elements of `s` have pairwise different keys. */
  ghost predicate DistinctKeys<X, K>(s: seq<X>, key: X -> K)
  {
    forall i, j :: 0 <= i < j < |s| ==> key(s[i]) != key(s[j])
  }

  /** The strict order a stable sort of `s` lists elements in: by comparator, ties by `s`. */
  ghost predicate Before<X>(s: seq<X>, cmp: (X, X) -> int, x: X, y: X)
  {
    cmp(x, y) < 0 || (cmp(x, y) == 0 && Precedes(s, x, y))
  }

  /**
   * What the standard requires of `sort` with a consistent comparator, `SortBy` meets: its
   * result is a sorted permutation that keeps tied elements in their order.
   */
  lemma SortByStableSorted<X(!new), K>(s: seq<X>, cmp: (X, X) -> int, key: X -> K)
    requires Consistent(cmp)
    requires DistinctKeys(s, key)
    ensures StableSort(s, SortBy(s, cmp), cmp)
  {
    SortBySorted(s, cmp);
    forall a, b | 0 <= a < b < |s| && cmp(s[a], s[b]) == 0
      ensures forall i, j ::
        0 <= i < |SortBy(s, cmp)| && 0 <= j < |SortBy(s, cmp)| && SortBy(s, cmp)[i] == s[a] && SortBy(s, cmp)[j] == s[b]
        ==> i < j
    {
      SortByStable(s, cmp, key, a, b);
    }
  }

  /**
   * For a consistent comparator, a sorted permutation that keeps tied elements in their
   * order is unique, and it is `SortBy`'s result: on these comparators the model returns
   * exactly what the standard requires `sort` to return.
   */
  lemma SortByIsTheStableSort<X(!new), K>(s: seq<X>, cmp: (X, X) -> int, key: X -> K, r: seq<X>)
    requires Consistent(cmp)
    requires DistinctKeys(s, key)
    requires StableSort(s, r, cmp)
    ensures r == SortBy(s, cmp)
  {
    var t := SortBy(s, cmp);
    SortByStableSorted(s, cmp, key);
    ListedBefore(s, cmp, key, r);
    ListedBefore(s, cmp, key, t);
    ChainUnique(s, cmp, key, r, t);
  }

  /** An element of a sequence with pairwise different keys occurs at most once. */
  lemma {:induction false} DistinctCount<X, K>(s: seq<X>, key: X -> K, x: X)
    requires DistinctKeys(s, key)
    ensures multiset(s)[x] <= 1
  {
    if s != [] {
      var t := s[1..];
      assert s == [s[0]] + t;
      forall i, j | 0 <= i < j < |t| ensures key(t[i]) != key(t[j]) {
        assert t[i] == s[i + 1] && t[j] == s[j + 1];
      }
      DistinctCount(t, key, x);
      forall k | 0 <= k < |t| ensures t[k] != s[0] {
        assert t[k] == s[k + 1];
      }
      assert s[0] !in t;
    }
  }

  /** A permutation of a sequence with pairwise different keys repeats no element. */
  lemma PermutationDistinct<X, K>(s: seq<X>, key: X -> K, r: seq<X>, i: int, j: int)
    requires DistinctKeys(s, key)
    requires multiset(r) == multiset(s) && 0 <= i < j < |r|
    ensures r[i] != r[j]
  {
    if r[i] == r[j] {
      var x := r[i];
      assert r == r[..j] + r[j..];
      assert r[..j][i] == x && r[j..][0] == x;
      assert multiset(r)[x] == multiset(r[..j])[x] + multiset(r[j..])[x];
      DistinctCount(s, key, x);
    }
  }

  /** `r` lists its elements in the order `Before`. */
  ghost predicate Chain<X>(s: seq<X>, cmp: (X, X) -> int, r: seq<X>)
  {
    forall i, j :: 0 <= i < j < |r| ==> Before(s, cmp, r[i], r[j])
  }

  /** A sorted, stable permutation lists its elements in the order `Before`. */
  lemma ListedBefore<X(!new), K>(s: seq<X>, cmp: (X, X) -> int, key: X -> K, r: seq<X>)
    requires Consistent(cmp)
    requires DistinctKeys(s, key)
    requires StableSort(s, r, cmp)
    ensures Chain(s, cmp, r)
  {
    forall i, j | 0 <= i < j < |r| ensures Before(s, cmp, r[i], r[j]) {
      if cmp(r[i], r[j]) == 0 {
        PermutationDistinct(s, key, r, i, j);
        assert r[i] in multiset(s) && r[j] in multiset(s);
        var a :| 0 <= a < |s| && s[a] == r[i];
        var b :| 0 <= b < |s| && s[b] == r[j];
        TiedInOrder(s, cmp, r, a, b, i, j);
      }
    }
  }

  /** Two tied elements that a stable permutation lists in some order come in that order in `s`. */
  lemma TiedInOrder<X(!new)>(s: seq<X>, cmp: (X, X) -> int, r: seq<X>, a: int, b: int, i: int, j: int)
    requires Consistent(cmp) && StableFor(s, r, cmp)
    requires 0 <= a < |s| && 0 <= b < |s| && 0 <= i < j < |r|
    requires r[i] == s[a] && r[j] == s[b] && r[i] != r[j] && cmp(r[i], r[j]) == 0
    ensures a < b
  {
    // Tied the other way round too, so `b < a` would put `r[j]` first.
    assert cmp(s[b], s[a]) == 0;
    assert b < a ==> j < i;
  }

  /** `Before` never holds both ways. */
  lemma BeforeAsymmetric<X(!new), K>(s: seq<X>, cmp: (X, X) -> int, key: X -> K, x: X, y: X)
    requires Consistent(cmp)
    requires DistinctKeys(s, key)
    ensures !(Before(s, cmp, x, y) && Before(s, cmp, y, x))
  {
    if cmp(x, y) == 0 && Precedes(s, x, y) {
      var i, j :| 0 <= i < j < |s| && s[i] == x && s[j] == y;
      forall i', j' | 0 <= i' < j' < |s| ensures !(s[i'] == y && s[j'] == x) {
        // An element of `s` sits at one position only.
        assert s[i'] == y ==> i' == j;
        assert s[j'] == x ==> j' == i;
      }
    }
  }

  /** Two chains holding the same elements start with the same one. */
  lemma HeadsEqual<X(!new), K>(s: seq<X>, cmp: (X, X) -> int, key: X -> K, p: seq<X>, q: seq<X>)
    requires Consistent(cmp)
    requires DistinctKeys(s, key)
    requires multiset(p) == multiset(q) && p != []
    requires Chain(s, cmp, p) && Chain(s, cmp, q)
    ensures q != [] && p[0] == q[0]
  {
    assert |multiset(p)| == |p| && |multiset(q)| == |q|;
    assert p[0] in multiset(q) && q[0] in multiset(p);
    // Each head comes before every other element, so the two heads are one element.
    var k :| 0 <= k < |q| && q[k] == p[0];
    var m :| 0 <= m < |p| && p[m] == q[0];
    assert k == 0 || Before(s, cmp, q[0], p[0]);
    assert m == 0 || Before(s, cmp, p[0], q[0]);
    BeforeAsymmetric(s, cmp, key, q[0], p[0]);
  }

  /** What follows the head of a chain is a chain. */
  lemma ChainTail<X>(s: seq<X>, cmp: (X, X) -> int, p: seq<X>)
    requires Chain(s, cmp, p) && p != []
    ensures Chain(s, cmp, p[1..])
  {
    forall i, j | 0 <= i < j < |p[1..]| ensures Before(s, cmp, p[1..][i], p[1..][j]) {
      assert p[1..][i] == p[i + 1] && p[1..][j] == p[j + 1];
    }
  }

  /** Permutations of each other with the same head have tails that are permutations of each other. */
  lemma TailsPermuted<X>(p: seq<X>, q: seq<X>)
    requires multiset(p) == multiset(q) && p != [] && q != [] && p[0] == q[0]
    ensures multiset(p[1..]) == multiset(q[1..])
  {
    assert p == [p[0]] + p[1..] && q == [q[0]] + q[1..];
    assert multiset(p[1..]) == multiset(p) - multiset{p[0]};
    assert multiset(q[1..]) == multiset(q) - multiset{q[0]};
  }

  /** Two permutations of each other that both list their elements in the order `Before` are equal. */
  lemma {:induction false} ChainUnique<X(!new), K>(s: seq<X>, cmp: (X, X) -> int, key: X -> K, p: seq<X>, q: seq<X>)
    requires Consistent(cmp)
    requires DistinctKeys(s, key)
    requires multiset(p) == multiset(q)
    requires Chain(s, cmp, p) && Chain(s, cmp, q)
    ensures p == q
    decreases |p|
  {
    if p == [] {
      assert |multiset(q)| == |q|;
    } else {
      HeadsEqual(s, cmp, key, p, q);
      TailsPermuted(p, q);
      ChainTail(s, cmp, p);
      ChainTail(s, cmp, q);
      ChainUnique(s, cmp, key, p[1..], q[1..]);
      assert p == [p[0]] + p[1..] && q == [q[0]] + q[1..];
    }
  }

  /** Appending an element that every element may precede keeps a sequence sorted. */
  lemma SortedAppend<X>(s: seq<X>, x: X, cmp: (X, X) -> int)
    requires SortedBy(s, cmp)
    requires forall k :: 0 <= k < |s| ==> cmp(s[k], x) <= 0
    ensures SortedBy(s + [x], cmp)
  {
    var r := s + [x];
    forall i, j | 0 <= i < j < |r| ensures cmp(r[i], r[j]) <= 0 {
      assert r[i] == s[i];
    }
  }
}
