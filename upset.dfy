/**
 * The set helpers of `UpSetCellRenderer` (`src/renderer/UpSetCellRenderer.ts`): the union
 * of the categories of a group of rows, the positions of the true entries of a set value,
 * and the span of the connecting line the DOM renderer draws between the first and the
 * last true entry. Pixel and percent arithmetic is left out, so positions are in cells.
 */
module UpSet {
  import opened Wrappers
  import opened Seqs

  // ---------------------------------------------------------------------------
  // union

  /** The categories `iterCategory` yields over the rows, with `None` for a null one. */
  ghost function Yielded<C>(rows: seq<seq<Option<C>>>): set<Option<C>>
  {
    if rows == [] then {} else Yielded(rows[..|rows| - 1]) + Elements(rows[|rows| - 1])
  }

  lemma {:induction false} YieldedIff<C>(rows: seq<seq<Option<C>>>, x: Option<C>)
    ensures x in Yielded(rows) <==> exists j, k :: 0 <= j < |rows| && 0 <= k < |rows[j]| && rows[j][k] == x
  {
    if rows != [] {
      var init := rows[..|rows| - 1];
      YieldedIff(init, x);
      if x in Yielded(rows) {
        if x in Yielded(init) {
          var j, k :| 0 <= j < |init| && 0 <= k < |init[j]| && init[j][k] == x;
          assert rows[j] == init[j];
        } else {
          var k :| 0 <= k < |rows[|rows| - 1]| && rows[|rows| - 1][k] == x;
        }
      }
      if exists j, k :: 0 <= j < |rows| && 0 <= k < |rows[j]| && rows[j][k] == x {
        var j, k :| 0 <= j < |rows| && 0 <= k < |rows[j]| && rows[j][k] == x;
        if j < |rows| - 1 {
          assert init[j] == rows[j];
        } else {
          assert rows[j][k] in rows[|rows| - 1];
        }
      }
    }
  }

  /**
   * `union(col, rows)`: one boolean per category, in the order of `categories`, true exactly
   * when some row yields that category. Here `rows[j]` is what `iterCategory` yields for
   * the j-th row.
   */
  method Union<C(==)>(categories: seq<C>, rows: seq<seq<Option<C>>>) returns (r: seq<bool>)
    ensures |r| == |categories|
    ensures forall i :: 0 <= i < |r| ==>
      (r[i] <==> exists j, k :: 0 <= j < |rows| && 0 <= k < |rows[j]| && rows[j][k] == Some(categories[i]))
    ensures rows == [] ==> forall i :: 0 <= i < |r| ==> !r[i]
  {
    var values: set<Option<C>> := {};
    for j := 0 to |rows|
      invariant values == Yielded(rows[..j])
    {
      ghost var before := values;
      var row := rows[j];
      for k := 0 to |row|
        invariant values == before + Elements(row[..k])
      {
        assert row[..k + 1] == row[..k] + [row[k]];
        values := values + {row[k]};
      }
      assert row[..|row|] == row;
      assert rows[..j + 1][..j] == rows[..j];
    }
    assert rows[..|rows|] == rows;
    r := seq(|categories|, i requires 0 <= i < |categories| => Some(categories[i]) in values);
    forall i | 0 <= i < |r|
      ensures r[i] <==> exists j, k :: 0 <= j < |rows| && 0 <= k < |rows[j]| && rows[j][k] == Some(categories[i])
    {
      YieldedIff(rows, Some(categories[i]));
    }
  }

  // ---------------------------------------------------------------------------
  // First and last true entry

  /** `findIndex((d) => d)`: the first true position, or -1. */
  function FirstTrue(s: seq<bool>): (i: int)
    ensures -1 <= i < |s|
    ensures i == -1 <==> forall k :: 0 <= k < |s| ==> !s[k]
    ensures 0 <= i ==> s[i] && forall k :: 0 <= k < i ==> !s[k]
  {
    if s == [] then -1
    else if s[0] then 0
    else
      var j := FirstTrue(s[1..]);
      if j < 0 then -1 else j + 1
  }

  /** The last true position, or -1. */
  function LastTrue(s: seq<bool>): (i: int)
    ensures -1 <= i < |s|
    ensures i == -1 <==> forall k :: 0 <= k < |s| ==> !s[k]
    ensures 0 <= i ==> s[i] && forall k :: i < k < |s| ==> !s[k]
  {
    if s == [] then -1
    else if s[|s| - 1] then |s| - 1
    else LastTrue(s[..|s| - 1])
  }

  function Reversed<X>(s: seq<X>): (r: seq<X>)
    ensures |r| == |s|
  {
    seq(|s|, i requires 0 <= i < |s| => s[|s| - 1 - i])
  }

  /** Searching the reversed sequence from the front finds the last true entry. */
  lemma {:induction false} FirstTrueOfReversed(s: seq<bool>)
    ensures FirstTrue(Reversed(s)) == if LastTrue(s) < 0 then -1 else |s| - 1 - LastTrue(s)
  {
    var l := LastTrue(s);
    if l >= 0 {
      ReversedFromLast(s, l);
      FirstTrueUnique(Reversed(s), |s| - 1 - l);
    } else {
      ReversedNoneTrue(s);
      FirstTrueNone(Reversed(s));
    }
  }

  lemma FirstTrueNone(s: seq<bool>)
    requires forall k :: 0 <= k < |s| ==> !s[k]
    ensures FirstTrue(s) == -1
  {
  }

  /** The last true entry of `s` is the first true entry of its reversal. */
  lemma ReversedFromLast(s: seq<bool>, l: int)
    requires 0 <= l < |s| && s[l] && forall k :: l < k < |s| ==> !s[k]
    ensures Reversed(s)[|s| - 1 - l]
    ensures forall k :: 0 <= k < |s| - 1 - l ==> !Reversed(s)[k]
  {
    var r := Reversed(s);
    assert r[|s| - 1 - l] == s[l];
    forall k | 0 <= k < |s| - 1 - l ensures !r[k] {
      assert r[k] == s[|s| - 1 - k];
    }
  }

  lemma ReversedNoneTrue(s: seq<bool>)
    requires forall k :: 0 <= k < |s| ==> !s[k]
    ensures forall k :: 0 <= k < |s| ==> !Reversed(s)[k]
  {
    var r := Reversed(s);
    forall k | 0 <= k < |s| ensures !r[k] {
      assert r[k] == s[|s| - 1 - k];
    }
  }

  /** A true entry with no true entry before it is the first true entry. */
  lemma FirstTrueUnique(s: seq<bool>, i: int)
    requires 0 <= i < |s| && s[i] && forall k :: 0 <= k < i ==> !s[k]
    ensures FirstTrue(s) == i
  {
    var f := FirstTrue(s);
    assert f != -1;
    assert !(f < i);
  }

  /** The first and last true entries coincide exactly when there is a single true entry. */
  lemma SingleTrueIff(s: seq<bool>)
    ensures (FirstTrue(s) >= 0 && FirstTrue(s) == LastTrue(s)) <==>
      exists i :: 0 <= i < |s| && s[i] && forall k :: 0 <= k < |s| && k != i ==> !s[k]
  {
    var f, l := FirstTrue(s), LastTrue(s);
    if f >= 0 && f == l {
      forall k | 0 <= k < |s| && k != f ensures !s[k] {
      }
    }
    if exists i :: 0 <= i < |s| && s[i] && forall k :: 0 <= k < |s| && k != i ==> !s[k] {
      var i :| 0 <= i < |s| && s[i] && forall k :: 0 <= k < |s| && k != i ==> !s[k];
      assert f == i && l == i;
    }
  }

  // ---------------------------------------------------------------------------
  // calculateSetPath

  /** The positions of the true entries, collected by a loop as `catindexes` is. */
  method CatIndexes(setData: seq<bool>) returns (idx: seq<int>)
    ensures forall a, b :: 0 <= a < b < |idx| ==> idx[a] < idx[b]
    ensures forall a :: 0 <= a < |idx| ==> 0 <= idx[a] < |setData| && setData[idx[a]]
    ensures forall i :: 0 <= i < |setData| && setData[i] ==> i in idx
  {
    idx := [];
    for i := 0 to |setData|
      invariant forall a, b :: 0 <= a < b < |idx| ==> idx[a] < idx[b]
      invariant forall a :: 0 <= a < |idx| ==> 0 <= idx[a] < i && setData[idx[a]]
      invariant forall k :: 0 <= k < i && setData[k] ==> k in idx
    {
      if setData[i] {
        idx := idx + [i];
      }
    }
  }

  /**
   * `calculateSetPath` in cell units: the line runs from the first to the last entry of
   * `catindexes`. With no true entry those are undefined (NaN in the source); the model
   * reports `None` there.
   */
  method SetPath(setData: seq<bool>) returns (span: Option<(int, int)>)
    ensures span.None? <==> forall k :: 0 <= k < |setData| ==> !setData[k]
    ensures span.Some? ==> span.value == (FirstTrue(setData), LastTrue(setData))
  {
    var idx := CatIndexes(setData);
    if |idx| == 0 {
      return None;
    }
    var f, l := FirstTrue(setData), LastTrue(setData);
    assert f in idx && l in idx;
    span := Some((idx[0], idx[|idx| - 1]));
  }

  // ---------------------------------------------------------------------------
  // The DOM render: left, right and whether the line is hidden

  /** `Array.prototype.reverse`: reverses the array in place. */
  method Reverse(a: array<bool>)
    modifies a
    ensures a[..] == Reversed(old(a[..]))
  {
    var i, j := 0, a.Length - 1;
    while i < j
      invariant 0 <= i && j == a.Length - 1 - i && i <= a.Length - i
      invariant forall k :: 0 <= k < i || a.Length - i <= k < a.Length ==> a[k] == old(a[a.Length - 1 - k])
      invariant forall k :: i <= k < a.Length - i ==> a[k] == old(a[k])
    {
      a[i], a[j] := a[j], a[i];
      i, j := i + 1, j - 1;
    }
  }

  /**
   * The left/right/hide logic of `render` as written: `left` is the first true index,
   * `right` is `length - 1` minus the first true index of `value.reverse()`; the line is
   * hidden when `left < 0` or `left === right`. The caller's array is left reversed.
   */
  method RenderSpan(value: array<bool>) returns (left: int, right: int, hidden: bool)
    modifies value
    ensures value[..] == Reversed(old(value[..]))
    ensures left == FirstTrue(old(value[..]))
    ensures right == if LastTrue(old(value[..])) < 0 then value.Length else LastTrue(old(value[..]))
    ensures hidden <==> left < 0 || left == right
  {
    left := FirstTrue(value[..]);
    Reverse(value);
    FirstTrueOfReversed(old(value[..]));
    right := (value.Length - 1) - FirstTrue(value[..]);
    hidden := left < 0 || left == right;
  }

  /** The reversal is visible to the caller: rendering `[true, false]` leaves `[false, true]`. */
  method RenderSpanReversesCallerArray() returns (before: seq<bool>, after: seq<bool>)
    ensures before == [true, false] && after == [false, true]
  {
    var a := new bool[2];
    a[0], a[1] := true, false;
    before := a[..];
    var _, _, _ := RenderSpan(a);
    after := a[..];
    assert after == Reversed(before);
    assert after[0] == before[1] && after[1] == before[0];
  }

  /**
   * The same left/right/hide results as `RenderSpan`, found by scanning from the back
   * instead of reversing, so the caller's value is left as it was.
   */
  method RenderSpanPure(value: seq<bool>) returns (left: int, right: int, hidden: bool)
    ensures left == FirstTrue(value)
    ensures right == if LastTrue(value) < 0 then |value| else LastTrue(value)
    ensures hidden <==> left < 0 || left == right
    ensures hidden <==>
      || (forall k :: 0 <= k < |value| ==> !value[k])
      || (exists i :: 0 <= i < |value| && value[i] && forall k :: 0 <= k < |value| && k != i ==> !value[k])
  {
    left := FirstTrue(value);
    var j := |value|;
    while j > 0 && !value[j - 1]
      invariant 0 <= j <= |value|
      invariant forall k :: j <= k < |value| ==> !value[k]
    {
      j := j - 1;
    }
    right := if j == 0 then |value| else j - 1;
    assert j > 0 ==> LastTrue(value) == j - 1;
    hidden := left < 0 || left == right;
    SingleTrueIff(value);
  }
}
