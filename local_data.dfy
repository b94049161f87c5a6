/**
 * `LocalDataProvider` of `src/provider/LocalDataProvider.ts`: the provider over an
 * in-memory array. This module holds its ranking pipeline `sortImpl` (filter, group,
 * two-level sort, partition into runs, sort of the groups), the row bookkeeping of
 * `setData`/`appendData`, the plain index maps `viewRaw`/`viewRawRows`/`fetch`, the lazy
 * row cache of `stats` and the index collection of `searchAndJump`.
 *
 * What a `Ranking` contributes to the pipeline (whether it filters, its filter, grouper,
 * comparator and group comparator) is not part of this model and comes in as a
 * `RankingFns` value; `localeCompare` of the lower-cased group names is the parameter
 * `nameCmp`, and `defaultGroup` is a parameter too.
 */
module LocalData {
  import opened Wrappers
  import Sorting
  import DataProvider

  /** An `IDataRow`: a data item and its position in the data. */
  datatype Row<T> = Row(v: T, dataIndex: int)

  /** An `IGroup`. */
  datatype Group = Group(name: string, color: string)

  /** A working row of `sortImpl` after its group has been assigned. */
  datatype GRow<T> = GRow(row: Row<T>, group: Group)

  /**
   * An `IOrderedGroup`: the group's fields plus the data indices in rank order. The groups
   * built by the partition also carry their `rows`; the single group does not.
   */
  datatype OrderedGroup<T> = OrderedGroup(group: Group, order: seq<int>, rows: Option<seq<GRow<T>>>)

  /** The parts of a `Ranking` that `sortImpl` consults. */
  datatype RankingFns<!T> = RankingFns(
    isFiltered: bool,
    filter: Row<T> -> bool,
    grouper: Row<T> -> Option<Group>,
    comparator: (GRow<T>, GRow<T>) -> int,
    groupComparator: (OrderedGroup<T>, OrderedGroup<T>) -> int)

  // ---------------------------------------------------------------------------
  // Helpers on sequences

  /** `Array.prototype.filter`. */
  function Filter<X>(s: seq<X>, p: X -> bool): (r: seq<X>)
    ensures |r| <= |s|
  {
    if s == [] then [] else (if p(s[0]) then [s[0]] else []) + Filter(s[1..], p)
  }

  /** `filter` keeps exactly the elements that pass, in their order. */
  lemma {:induction false} FilterSpec<X>(s: seq<X>, p: X -> bool)
    ensures forall k :: 0 <= k < |Filter(s, p)| ==> p(Filter(s, p)[k]) && Filter(s, p)[k] in s
    ensures forall i :: 0 <= i < |s| && p(s[i]) ==> s[i] in Filter(s, p)
  {
    if s != [] {
      FilterSpec(s[1..], p);
      var r := Filter(s, p);
      var rest := Filter(s[1..], p);
      assert r == (if p(s[0]) then [s[0]] else []) + rest;
      forall k | 0 <= k < |r| ensures p(r[k]) && r[k] in s {
        if p(s[0]) && k == 0 {
        } else {
          var k' := if p(s[0]) then k - 1 else k;
          assert r[k] == rest[k'];
          assert rest[k'] in s[1..];
        }
      }
      forall i | 0 <= i < |s| && p(s[i]) ensures s[i] in r {
        if i > 0 {
          assert s[i] == s[1..][i - 1];
        }
      }
    }
  }

  /** The data indices of rows, in order. */
  function Indices<T>(rows: seq<Row<T>>): (r: seq<int>)
    ensures |r| == |rows| && forall k :: 0 <= k < |rows| ==> r[k] == rows[k].dataIndex
  {
    if rows == [] then [] else [rows[0].dataIndex] + Indices(rows[1..])
  }

  /** The data indices of working rows, in order. */
  function GIndices<T>(rows: seq<GRow<T>>): (r: seq<int>)
    ensures |r| == |rows| && forall k :: 0 <= k < |rows| ==> r[k] == rows[k].row.dataIndex
  {
    if rows == [] then [] else [rows[0].row.dataIndex] + GIndices(rows[1..])
  }

  /** The `order` arrays of the groups, one after another. */
  function ConcatOrders<T>(gs: seq<OrderedGroup<T>>): seq<int>
  {
    if gs == [] then [] else gs[0].order + ConcatOrders(gs[1..])
  }

  /** The `rows` of the groups, one after another. */
  function ConcatRows<T>(gs: seq<OrderedGroup<T>>): seq<GRow<T>>
  {
    if gs == [] then [] else gs[0].rows.GetOr([]) + ConcatRows(gs[1..])
  }

  lemma {:induction false} ConcatOrdersAppend<T>(a: seq<OrderedGroup<T>>, b: seq<OrderedGroup<T>>)
    ensures ConcatOrders(a + b) == ConcatOrders(a) + ConcatOrders(b)
  {
    if a == [] {
      assert a + b == b;
    } else {
      assert (a + b)[1..] == a[1..] + b;
      ConcatOrdersAppend(a[1..], b);
    }
  }

  lemma {:induction false} ConcatRowsAppend<T>(a: seq<OrderedGroup<T>>, b: seq<OrderedGroup<T>>)
    ensures ConcatRows(a + b) == ConcatRows(a) + ConcatRows(b)
  {
    if a == [] {
      assert a + b == b;
    } else {
      assert (a + b)[1..] == a[1..] + b;
      ConcatRowsAppend(a[1..], b);
    }
  }

  lemma {:induction false} GIndicesAppend<T>(a: seq<GRow<T>>, b: seq<GRow<T>>)
    ensures GIndices(a + b) == GIndices(a) + GIndices(b)
  {
  }

  /** Sorting the rows rearranges their data indices and no more. */
  lemma {:induction false} SortByKeepsIndices<T>(s: seq<GRow<T>>, cmp: (GRow<T>, GRow<T>) -> int)
    ensures multiset(GIndices(Sorting.SortBy(s, cmp))) == multiset(GIndices(s))
  {
    if s != [] {
      SortByKeepsIndices(s[1..], cmp);
      InsertKeepsIndices(s[0], Sorting.SortBy(s[1..], cmp), cmp);
      assert GIndices(s) == [s[0].row.dataIndex] + GIndices(s[1..]);
    }
  }

  lemma {:induction false} InsertKeepsIndices<T>(x: GRow<T>, s: seq<GRow<T>>, cmp: (GRow<T>, GRow<T>) -> int)
    ensures multiset(GIndices(Sorting.Insert(x, s, cmp))) == multiset{x.row.dataIndex} + multiset(GIndices(s))
  {
    if s != [] && cmp(x, s[0]) > 0 {
      InsertKeepsIndices(x, s[1..], cmp);
      assert GIndices(s) == [s[0].row.dataIndex] + GIndices(s[1..]);
    }
  }

  /** Sorting the groups rearranges the concatenation of their orders and no more. */
  lemma {:induction false} SortByKeepsOrders<T>(gs: seq<OrderedGroup<T>>, cmp: (OrderedGroup<T>, OrderedGroup<T>) -> int)
    ensures multiset(ConcatOrders(Sorting.SortBy(gs, cmp))) == multiset(ConcatOrders(gs))
  {
    if gs != [] {
      SortByKeepsOrders(gs[1..], cmp);
      InsertKeepsOrders(gs[0], Sorting.SortBy(gs[1..], cmp), cmp);
    }
  }

  lemma {:induction false} InsertKeepsOrders<T>(x: OrderedGroup<T>, gs: seq<OrderedGroup<T>>, cmp: (OrderedGroup<T>, OrderedGroup<T>) -> int)
    ensures multiset(ConcatOrders(Sorting.Insert(x, gs, cmp))) == multiset(x.order) + multiset(ConcatOrders(gs))
  {
    if gs != [] && cmp(x, gs[0]) > 0 {
      InsertKeepsOrders(x, gs[1..], cmp);
    }
  }

  // ---------------------------------------------------------------------------
  // The stages of sortImpl

  /** `toRows`: each item with its position as `dataIndex`. */
  function ToRows<T>(data: seq<T>): (r: seq<Row<T>>)
    ensures |r| == |data|
  {
    seq(|data|, i requires 0 <= i < |data| => Row(data[i], i))
  }

  /** `filtered.every((f) => f.filter(d))`. */
  function PassesAll<T>(filtered: seq<RankingFns<T>>, row: Row<T>): bool
  {
    forall k :: 0 <= k < |filtered| ==> filtered[k].filter(row)
  }

  function PassesFilters<T>(filtered: seq<RankingFns<T>>): Row<T> -> bool
  {
    (d: Row<T>) => PassesAll(filtered, d)
  }

  function IsFiltered<T>(r: RankingFns<T>): bool
  {
    r.isFiltered
  }

  /** The optional filtering step of `sortImpl`. */
  function Survivors<T>(rows: seq<Row<T>>, ranking: RankingFns<T>, rankings: seq<RankingFns<T>>, filterGlobally: bool): seq<Row<T>>
  {
    if filterGlobally then
      var filtered := Filter(rankings, IsFiltered);
      if |filtered| > 0 then Filter(rows, PassesFilters(filtered)) else rows
    else if ranking.isFiltered then Filter(rows, ranking.filter)
    else rows
  }

  /** `ranking.grouper(r) || defaultGroup` for every row. */
  function AssignGroups<T>(rows: seq<Row<T>>, grouper: Row<T> -> Option<Group>, defaultGroup: Group): (r: seq<GRow<T>>)
    ensures |r| == |rows|
  {
    seq(|rows|, i requires 0 <= i < |rows| => GRow(rows[i], grouper(rows[i]).GetOr(defaultGroup)))
  }

  /** `new Set(helper.map((r) => r.group.name)).size === 1`. */
  predicate SameName<T>(rows: seq<GRow<T>>)
  {
    forall k :: 0 <= k < |rows| ==> rows[k].group.name == rows[0].group.name
  }

  /** The comparator of the two-level sort: by group name, and within a name by `comparator`. */
  function Composite<T>(nameCmp: (string, string) -> int, comparator: (GRow<T>, GRow<T>) -> int, a: GRow<T>, b: GRow<T>): int
  {
    if a.group.name != b.group.name then nameCmp(a.group.name, b.group.name) else comparator(a, b)
  }

  function CompositeOrder<T>(nameCmp: (string, string) -> int, comparator: (GRow<T>, GRow<T>) -> int): (GRow<T>, GRow<T>) -> int
  {
    (a: GRow<T>, b: GRow<T>) => Composite(nameCmp, comparator, a, b)
  }

  /**
   * The partition of the sorted rows into runs, as the loop of `sortImpl` builds it: each row
   * joins the last group when its group name is that group's name, and starts a new group
   * (with the row's group fields) otherwise.
   */
  function Runs<T>(hs: seq<GRow<T>>): (r: seq<OrderedGroup<T>>)
    ensures |hs| > 0 ==> |r| > 0
    ensures forall k :: 0 <= k < |r| ==> r[k].rows.Some?
  {
    if hs == [] then [] else Extend(Runs(hs[..|hs| - 1]), hs[|hs| - 1])
  }

  /** One step of the partition: row `h` joins the last group or starts a new one. */
  function Extend<T>(prev: seq<OrderedGroup<T>>, h: GRow<T>): (r: seq<OrderedGroup<T>>)
    requires forall k :: 0 <= k < |prev| ==> prev[k].rows.Some?
    ensures |r| > 0
    ensures forall k :: 0 <= k < |r| ==> r[k].rows.Some?
  {
    if prev != [] && prev[|prev| - 1].group.name == h.group.name then
      var last := prev[|prev| - 1];
      prev[..|prev| - 1] + [last.(order := last.order + [h.row.dataIndex], rows := Some(last.rows.value + [h]))]
    else
      prev + [OrderedGroup(h.group, [h.row.dataIndex], Some([h]))]
  }

  lemma RunsPrefix<T>(hs: seq<GRow<T>>, i: nat)
    requires i < |hs|
    ensures Runs(hs[..i + 1]) == Extend(Runs(hs[..i]), hs[i])
  {
    assert hs[..i + 1][..i] == hs[..i];
  }

  /** `sortImpl` as one function of the data, the ranking and the options. */
  function Pipeline<T>(data: seq<T>, ranking: RankingFns<T>, rankings: seq<RankingFns<T>>, filterGlobally: bool,
                       defaultGroup: Group, nameCmp: (string, string) -> int): (r: seq<OrderedGroup<T>>)
    ensures r == [] <==> Survivors(ToRows(data), ranking, rankings, filterGlobally) == []
  {
    if |data| == 0 then
      assert ToRows(data) == [];
      []
    else
      var s := Survivors(ToRows(data), ranking, rankings, filterGlobally);
      if |s| == 0 then []
      else
        var g := AssignGroups(s, ranking.grouper, defaultGroup);
        if SameName(g) then [OrderedGroup(g[0].group, GIndices(Sorting.SortBy(g, ranking.comparator)), None)]
        else Sorting.SortBy(Runs(Sorting.SortBy(g, CompositeOrder(nameCmp, ranking.comparator))), ranking.groupComparator)
  }

  // ---------------------------------------------------------------------------
  // The partition into runs

  lemma {:induction false} RunsCover<T>(hs: seq<GRow<T>>)
    ensures ConcatRows(Runs(hs)) == hs
  {
    if hs != [] {
      var init := hs[..|hs| - 1];
      var h := hs[|hs| - 1];
      var prev := Runs(init);
      RunsCover(init);
      assert hs == init + [h];
      if prev != [] && prev[|prev| - 1].group.name == h.group.name {
        var last := prev[|prev| - 1];
        var last' := last.(order := last.order + [h.row.dataIndex], rows := Some(last.rows.value + [h]));
        assert prev == prev[..|prev| - 1] + [last];
        ConcatRowsAppend(prev[..|prev| - 1], [last]);
        ConcatRowsAppend(prev[..|prev| - 1], [last']);
        assert ConcatRows([last]) == last.rows.value;
        assert ConcatRows([last']) == last.rows.value + [h];
      } else {
        var g := OrderedGroup(h.group, [h.row.dataIndex], Some([h]));
        ConcatRowsAppend(prev, [g]);
        assert ConcatRows([g]) == [h];
      }
    }
  }

  /** What makes one run: its indices are its rows' indices, and all rows share its name. */
  ghost predicate WellFormedRun<T>(g: OrderedGroup<T>)
  {
    && g.rows.Some? && |g.rows.value| > 0
    && g.order == GIndices(g.rows.value)
    && g.rows.value[0].group == g.group
    && forall j :: 0 <= j < |g.rows.value| ==> g.rows.value[j].group.name == g.group.name
  }

  /**
   * Every run is non-empty, takes its group fields from its first row, lists its rows'
   * indices, and every row in it has the run's group name.
   */
  lemma {:induction false} RunsWellFormed<T>(hs: seq<GRow<T>>)
    ensures forall k :: 0 <= k < |Runs(hs)| ==> WellFormedRun(Runs(hs)[k])
  {
    if hs != [] {
      var init := hs[..|hs| - 1];
      var h := hs[|hs| - 1];
      var prev := Runs(init);
      RunsWellFormed(init);
      var r := Runs(hs);
      if prev != [] && prev[|prev| - 1].group.name == h.group.name {
        var last := prev[|prev| - 1];
        assert WellFormedRun(last);
        GIndicesAppend(last.rows.value, [h]);
        forall k | 0 <= k < |r| ensures WellFormedRun(r[k]) {
          if k < |r| - 1 {
            assert r[k] == prev[k];
          }
        }
      } else {
        forall k | 0 <= k < |r| ensures WellFormedRun(r[k]) {
          if k < |r| - 1 {
            assert r[k] == prev[k];
          }
        }
      }
    }
  }

  /** The last run has the name of the last row. */
  lemma RunsLastName<T>(hs: seq<GRow<T>>)
    requires hs != []
    ensures Runs(hs)[|Runs(hs)| - 1].group.name == hs[|hs| - 1].group.name
  {
  }

  /** A new group starts exactly at a change of name: neighbouring runs differ in name. */
  lemma {:induction false} RunsAdjacentDiffer<T>(hs: seq<GRow<T>>)
    ensures forall k :: 0 <= k < |Runs(hs)| - 1 ==> Runs(hs)[k].group.name != Runs(hs)[k + 1].group.name
  {
    if hs != [] {
      var init := hs[..|hs| - 1];
      var h := hs[|hs| - 1];
      var prev := Runs(init);
      RunsAdjacentDiffer(init);
      var r := Runs(hs);
      forall k | 0 <= k < |r| - 1 ensures r[k].group.name != r[k + 1].group.name {
        assert r[k] == prev[k];
        if k + 1 < |prev| {
          assert r[k + 1].group.name == prev[k + 1].group.name;
        }
      }
    }
  }

  /** Every row of every run is one of the partitioned rows. */
  lemma {:induction false} RunsMembers<T>(hs: seq<GRow<T>>)
    ensures forall k, j :: 0 <= k < |Runs(hs)| && 0 <= j < |Runs(hs)[k].rows.value| ==> Runs(hs)[k].rows.value[j] in hs
  {
    if hs != [] {
      var init := hs[..|hs| - 1];
      RunsMembers(init);
      assert forall x :: x in init ==> x in hs;
      ExtendWithin(Runs(init), hs[|hs| - 1], hs);
    }
  }

  /** A step of the partition only adds row `h` to the rows the runs hold. */
  lemma ExtendWithin<T>(prev: seq<OrderedGroup<T>>, h: GRow<T>, hs: seq<GRow<T>>)
    requires forall k :: 0 <= k < |prev| ==> prev[k].rows.Some?
    requires forall k, j :: 0 <= k < |prev| && 0 <= j < |prev[k].rows.value| ==> prev[k].rows.value[j] in hs
    requires h in hs
    ensures forall k, j :: 0 <= k < |Extend(prev, h)| && 0 <= j < |Extend(prev, h)[k].rows.value| ==>
      Extend(prev, h)[k].rows.value[j] in hs
  {
    var r := Extend(prev, h);
    if prev != [] && prev[|prev| - 1].group.name == h.group.name {
      var last := prev[|prev| - 1];
      assert r[|prev| - 1].rows.value == last.rows.value + [h];
      assert forall k :: 0 <= k < |prev| - 1 ==> r[k] == prev[k];
    } else {
      assert forall k :: 0 <= k < |prev| ==> r[k] == prev[k];
      assert r[|prev|].rows.value == [h];
    }
  }

  /**
   * When the rows are sorted by the two-level comparator, each run, whose rows share one
   * name, is sorted by the ranking's comparator.
   */
  lemma {:induction false} RunsSortedWithin<T>(hs: seq<GRow<T>>, nameCmp: (string, string) -> int, cmp: (GRow<T>, GRow<T>) -> int)
    requires Sorting.SortedBy(hs, CompositeOrder(nameCmp, cmp))
    ensures forall k :: 0 <= k < |Runs(hs)| ==> Sorting.SortedBy(Runs(hs)[k].rows.value, cmp)
  {
    if hs != [] {
      var init := hs[..|hs| - 1];
      var h := hs[|hs| - 1];
      var prev := Runs(init);
      Sorting.SortedSlice(hs, 0, |hs| - 1, CompositeOrder(nameCmp, cmp));
      RunsSortedWithin(init, nameCmp, cmp);
      var r := Runs(hs);
      if prev != [] && prev[|prev| - 1].group.name == h.group.name {
        LastRunPrecedes(hs, prev[|prev| - 1], nameCmp, cmp);
        Sorting.SortedAppend(prev[|prev| - 1].rows.value, h, cmp);
      }
      forall k | 0 <= k < |r| ensures Sorting.SortedBy(r[k].rows.value, cmp) {
        if k < |r| - 1 {
          assert r[k] == prev[k];
        }
      }
    }
  }

  /** Every row of the run the last row joins may precede that row by the comparator. */
  lemma LastRunPrecedes<T>(hs: seq<GRow<T>>, last: OrderedGroup<T>, nameCmp: (string, string) -> int, cmp: (GRow<T>, GRow<T>) -> int)
    requires Sorting.SortedBy(hs, CompositeOrder(nameCmp, cmp))
    requires hs != [] && Runs(hs[..|hs| - 1]) != []
    requires last == Runs(hs[..|hs| - 1])[|Runs(hs[..|hs| - 1])| - 1]
    requires last.group.name == hs[|hs| - 1].group.name
    ensures last.rows.Some? && forall a :: 0 <= a < |last.rows.value| ==> cmp(last.rows.value[a], hs[|hs| - 1]) <= 0
  {
    var init := hs[..|hs| - 1];
    var prev := Runs(init);
    RunsWellFormed(init);
    RunsMembers(init);
    assert WellFormedRun(last);
    forall a | 0 <= a < |last.rows.value| ensures cmp(last.rows.value[a], hs[|hs| - 1]) <= 0 {
      var x := last.rows.value[a];
      assert x in init;
      var i :| 0 <= i < |init| && init[i] == x;
      assert hs[i] == x;
      assert CompositeOrder(nameCmp, cmp)(hs[i], hs[|hs| - 1]) <= 0;
    }
  }

  /** For well-formed runs, the concatenated orders are the indices of the concatenated rows. */
  lemma {:induction false} ConcatOrdersOfRuns<T>(gs: seq<OrderedGroup<T>>)
    requires forall k :: 0 <= k < |gs| ==> WellFormedRun(gs[k])
    ensures ConcatOrders(gs) == GIndices(ConcatRows(gs))
  {
    if gs != [] {
      ConcatOrdersOfRuns(gs[1..]);
      assert WellFormedRun(gs[0]);
      GIndicesAppend(gs[0].rows.value, ConcatRows(gs[1..]));
    }
  }

  // ---------------------------------------------------------------------------
  // What survives the filtering step

  /** The reference description of the filtering step: whether a row is kept. */
  ghost predicate Kept<T>(ranking: RankingFns<T>, rankings: seq<RankingFns<T>>, filterGlobally: bool, r: Row<T>)
  {
    if filterGlobally then forall k :: 0 <= k < |rankings| && rankings[k].isFiltered ==> rankings[k].filter(r)
    else ranking.isFiltered ==> ranking.filter(r)
  }

  /** Passing every filtering ranking is passing the filter of each ranking that filters. */
  lemma PassesAllIff<T>(rankings: seq<RankingFns<T>>, r: Row<T>)
    ensures PassesAll(Filter(rankings, IsFiltered), r) <==>
      forall k :: 0 <= k < |rankings| && rankings[k].isFiltered ==> rankings[k].filter(r)
    ensures |Filter(rankings, IsFiltered)| == 0 ==> forall k :: 0 <= k < |rankings| ==> !rankings[k].isFiltered
  {
    var filtered := Filter(rankings, IsFiltered);
    FilterSpec(rankings, IsFiltered);
    if PassesAll(filtered, r) {
      forall k | 0 <= k < |rankings| && rankings[k].isFiltered ensures rankings[k].filter(r) {
        assert IsFiltered(rankings[k]);
        var j :| 0 <= j < |filtered| && filtered[j] == rankings[k];
      }
    }
    if forall k :: 0 <= k < |rankings| && rankings[k].isFiltered ==> rankings[k].filter(r) {
      forall j | 0 <= j < |filtered| ensures filtered[j].filter(r) {
        assert IsFiltered(filtered[j]);
        var k :| 0 <= k < |rankings| && rankings[k] == filtered[j];
      }
    }
    forall k | 0 <= k < |rankings| ensures |filtered| == 0 ==> !rankings[k].isFiltered {
      if rankings[k].isFiltered {
        assert IsFiltered(rankings[k]);
        assert rankings[k] in filtered;
      }
    }
  }

  /** Filtering rows whose indices increase keeps their indices increasing. */
  lemma {:induction false} FilterKeepsIncreasing<T>(rows: seq<Row<T>>, p: Row<T> -> bool)
    requires forall a, b :: 0 <= a < b < |rows| ==> rows[a].dataIndex < rows[b].dataIndex
    ensures forall a, b :: 0 <= a < b < |Filter(rows, p)| ==> Filter(rows, p)[a].dataIndex < Filter(rows, p)[b].dataIndex
  {
    if rows != [] {
      var t := rows[1..];
      forall a, b | 0 <= a < b < |t| ensures t[a].dataIndex < t[b].dataIndex {
        assert t[a] == rows[a + 1] && t[b] == rows[b + 1];
      }
      FilterKeepsIncreasing(t, p);
      FilterSpec(t, p);
      var rest := Filter(t, p);
      var r := Filter(rows, p);
      assert r == (if p(rows[0]) then [rows[0]] else []) + rest;
      forall a, b | 0 <= a < b < |r| ensures r[a].dataIndex < r[b].dataIndex {
        if p(rows[0]) {
          assert r[b] == rest[b - 1];
          if a == 0 {
            assert rest[b - 1] in t;
            var m :| 0 <= m < |t| && t[m] == rest[b - 1];
            assert t[m] == rows[m + 1];
          } else {
            assert r[a] == rest[a - 1];
          }
        }
      }
    }
  }

  /**
   * The survivors are the rows `Kept` describes, each as its item with its position, in the
   * order of the data.
   */
  lemma SurvivorsSpec<T>(data: seq<T>, ranking: RankingFns<T>, rankings: seq<RankingFns<T>>, filterGlobally: bool)
    ensures var s := Survivors(ToRows(data), ranking, rankings, filterGlobally);
      && (forall a, b :: 0 <= a < b < |s| ==> s[a].dataIndex < s[b].dataIndex)
      && (forall k :: 0 <= k < |s| ==>
            0 <= s[k].dataIndex < |data| && s[k] == Row(data[s[k].dataIndex], s[k].dataIndex)
            && Kept(ranking, rankings, filterGlobally, s[k]))
      && (forall i :: 0 <= i < |data| && Kept(ranking, rankings, filterGlobally, Row(data[i], i)) ==> Row(data[i], i) in s)
  {
    var rows := ToRows(data);
    var s := Survivors(rows, ranking, rankings, filterGlobally);
    var filtered := Filter(rankings, IsFiltered);
    assert forall k :: 0 <= k < |rows| ==> rows[k] == Row(data[k], k);
    if filterGlobally && |filtered| > 0 {
      var p := PassesFilters(filtered);
      FilterSpec(rows, p);
      FilterKeepsIncreasing(rows, p);
      forall r ensures p(r) <==> Kept(ranking, rankings, filterGlobally, r) {
        PassesAllIff(rankings, r);
      }
    } else if !filterGlobally && ranking.isFiltered {
      FilterSpec(rows, ranking.filter);
      FilterKeepsIncreasing(rows, ranking.filter);
    } else {
      assert s == rows;
      if |rows| > 0 {
        PassesAllIff(rankings, rows[0]);
      }
    }
  }

  // ---------------------------------------------------------------------------
  // Properties of the result of sortImpl

  /** The group the grouper assigns to the item at position `i`, or the default group. */
  function GroupOf<T>(data: seq<T>, grouper: Row<T> -> Option<Group>, defaultGroup: Group, i: int): Group
    requires 0 <= i < |data|
  {
    grouper(Row(data[i], i)).GetOr(defaultGroup)
  }

  /** There are no groups exactly when no row survives the filtering step (or there is no data). */
  lemma AssignGroupsIndices<T>(s: seq<Row<T>>, grouper: Row<T> -> Option<Group>, defaultGroup: Group)
    ensures GIndices(AssignGroups(s, grouper, defaultGroup)) == Indices(s)
  {
  }

  /** The orders of all groups together are a rearrangement of the survivors' indices. */
  lemma PipelineCovers<T>(data: seq<T>, ranking: RankingFns<T>, rankings: seq<RankingFns<T>>, filterGlobally: bool,
                          defaultGroup: Group, nameCmp: (string, string) -> int)
    ensures multiset(ConcatOrders(Pipeline(data, ranking, rankings, filterGlobally, defaultGroup, nameCmp))) ==
      multiset(Indices(Survivors(ToRows(data), ranking, rankings, filterGlobally)))
  {
    var s := Survivors(ToRows(data), ranking, rankings, filterGlobally);
    var result := Pipeline(data, ranking, rankings, filterGlobally, defaultGroup, nameCmp);
    if |data| == 0 {
      assert ToRows(data) == [];
    } else if |s| > 0 {
      var g := AssignGroups(s, ranking.grouper, defaultGroup);
      AssignGroupsIndices(s, ranking.grouper, defaultGroup);
      if SameName(g) {
        assert result == [OrderedGroup(g[0].group, GIndices(Sorting.SortBy(g, ranking.comparator)), None)];
        SingleGroupKeepsIndices(g, ranking.comparator, g[0].group);
      } else {
        var c := CompositeOrder(nameCmp, ranking.comparator);
        assert result == Sorting.SortBy(Runs(Sorting.SortBy(g, c)), ranking.groupComparator);
        PartitionKeepsIndices(g, c, ranking.groupComparator);
      }
    }
  }

  /** The single group's order is a rearrangement of the rows' indices. */
  lemma SingleGroupKeepsIndices<T>(g: seq<GRow<T>>, cmp: (GRow<T>, GRow<T>) -> int, grp: Group)
    ensures multiset(ConcatOrders<T>([OrderedGroup(grp, GIndices(Sorting.SortBy(g, cmp)), None)])) == multiset(GIndices(g))
  {
    var og: OrderedGroup<T> := OrderedGroup(grp, GIndices(Sorting.SortBy(g, cmp)), None);
    SortByKeepsIndices(g, cmp);
    assert [og][1..] == [];
  }

  /** Sorting, partitioning and sorting the groups keeps the rows' indices. */
  lemma PartitionKeepsIndices<T>(g: seq<GRow<T>>, c: (GRow<T>, GRow<T>) -> int, gc: (OrderedGroup<T>, OrderedGroup<T>) -> int)
    ensures multiset(ConcatOrders(Sorting.SortBy(Runs(Sorting.SortBy(g, c)), gc))) == multiset(GIndices(g))
  {
    var sorted := Sorting.SortBy(g, c);
    var runs := Runs(sorted);
    SortByKeepsOrders(runs, gc);
    RunsWellFormed(sorted);
    ConcatOrdersOfRuns(runs);
    RunsCover(sorted);
    SortByKeepsIndices(g, c);
  }

  /** In a strictly increasing sequence every value occurs at most once. */
  lemma {:induction false} IncreasingCounts(s: seq<int>, x: int)
    requires forall a, b :: 0 <= a < b < |s| ==> s[a] < s[b]
    ensures multiset(s)[x] == if x in s then 1 else 0
  {
    if s != [] {
      var t := s[1..];
      forall a, b | 0 <= a < b < |t| ensures t[a] < t[b] {
        assert t[a] == s[a + 1] && t[b] == s[b + 1];
      }
      IncreasingCounts(t, x);
      assert s == [s[0]] + t;
      forall m | 0 <= m < |t| ensures t[m] != s[0] {
        assert t[m] == s[m + 1];
      }
    }
  }

  /**
   * The result is an argsort of the surviving rows: over all groups, the index of every row
   * the filters keep appears exactly once, and no other index appears.
   */
  lemma PipelineArgsort<T>(data: seq<T>, ranking: RankingFns<T>, rankings: seq<RankingFns<T>>, filterGlobally: bool,
                           defaultGroup: Group, nameCmp: (string, string) -> int)
    ensures forall i ::
      multiset(ConcatOrders(Pipeline(data, ranking, rankings, filterGlobally, defaultGroup, nameCmp)))[i] ==
      (if 0 <= i < |data| && Kept(ranking, rankings, filterGlobally, Row(data[i], i)) then 1 else 0)
  {
    var s := Survivors(ToRows(data), ranking, rankings, filterGlobally);
    var idx := Indices(s);
    PipelineCovers(data, ranking, rankings, filterGlobally, defaultGroup, nameCmp);
    SurvivorsSpec(data, ranking, rankings, filterGlobally);
    forall i ensures multiset(idx)[i] == if 0 <= i < |data| && Kept(ranking, rankings, filterGlobally, Row(data[i], i)) then 1 else 0 {
      IncreasingCounts(idx, i);
      if 0 <= i < |data| && Kept(ranking, rankings, filterGlobally, Row(data[i], i)) {
        var k :| 0 <= k < |s| && s[k] == Row(data[i], i);
        assert idx[k] == i;
      }
      if i in idx {
        var k :| 0 <= k < |idx| && idx[k] == i;
        assert s[k] == Row(data[i], i);
      }
    }
  }

  /** A working row of the pipeline is a surviving item with its position and its assigned group. */
  lemma AssignedRow<T>(data: seq<T>, ranking: RankingFns<T>, rankings: seq<RankingFns<T>>, filterGlobally: bool,
                       defaultGroup: Group, x: GRow<T>)
    requires x in AssignGroups(Survivors(ToRows(data), ranking, rankings, filterGlobally), ranking.grouper, defaultGroup)
    ensures 0 <= x.row.dataIndex < |data| && x.row == Row(data[x.row.dataIndex], x.row.dataIndex)
    ensures x.group == GroupOf(data, ranking.grouper, defaultGroup, x.row.dataIndex)
  {
    SurvivorsSpec(data, ranking, rankings, filterGlobally);
    var g := AssignGroups(Survivors(ToRows(data), ranking, rankings, filterGlobally), ranking.grouper, defaultGroup);
    var m :| 0 <= m < |g| && g[m] == x;
  }

  /**
   * A group of the result: it lists at least one index, every index it lists is an item whose
   * assigned group has the group's name, and its fields are those of one of its items.
   */
  ghost predicate NamedGroup<T>(data: seq<T>, grouper: Row<T> -> Option<Group>, defaultGroup: Group, grp: OrderedGroup<T>)
  {
    && |grp.order| > 0
    && (forall j :: 0 <= j < |grp.order| ==>
          0 <= grp.order[j] < |data| && GroupOf(data, grouper, defaultGroup, grp.order[j]).name == grp.group.name)
    && (exists j :: 0 <= j < |grp.order| && 0 <= grp.order[j] < |data| && GroupOf(data, grouper, defaultGroup, grp.order[j]) == grp.group)
  }

  lemma RunIsNamed<T>(data: seq<T>, ranking: RankingFns<T>, rankings: seq<RankingFns<T>>, filterGlobally: bool,
                      defaultGroup: Group, grp: OrderedGroup<T>)
    requires WellFormedRun(grp)
    requires forall j :: 0 <= j < |grp.rows.value| ==>
      grp.rows.value[j] in AssignGroups(Survivors(ToRows(data), ranking, rankings, filterGlobally), ranking.grouper, defaultGroup)
    ensures NamedGroup(data, ranking.grouper, defaultGroup, grp)
  {
    var rows := grp.rows.value;
    forall j | 0 <= j < |grp.order|
      ensures 0 <= grp.order[j] < |data| && GroupOf(data, ranking.grouper, defaultGroup, grp.order[j]).name == grp.group.name
    {
      AssignedRow(data, ranking, rankings, filterGlobally, defaultGroup, rows[j]);
    }
    AssignedRow(data, ranking, rankings, filterGlobally, defaultGroup, rows[0]);
    assert grp.order[0] == rows[0].row.dataIndex;
  }

  /** Every group of the result is a `NamedGroup`. */
  lemma PipelineGroupsNamed<T>(data: seq<T>, ranking: RankingFns<T>, rankings: seq<RankingFns<T>>, filterGlobally: bool,
                               defaultGroup: Group, nameCmp: (string, string) -> int)
    ensures var result := Pipeline(data, ranking, rankings, filterGlobally, defaultGroup, nameCmp);
      forall k :: 0 <= k < |result| ==> NamedGroup(data, ranking.grouper, defaultGroup, result[k])
  {
    var s := Survivors(ToRows(data), ranking, rankings, filterGlobally);
    if |data| > 0 && |s| > 0 {
      var g := AssignGroups(s, ranking.grouper, defaultGroup);
      if SameName(g) {
        SingleGroupNamed(data, ranking, rankings, filterGlobally, defaultGroup);
      } else {
        var sorted := Sorting.SortBy(g, CompositeOrder(nameCmp, ranking.comparator));
        PartitionedGroupsNamed(data, ranking, rankings, filterGlobally, defaultGroup, g, sorted);
        var runs := Runs(sorted);
        SortKeepsNamed(data, ranking.grouper, defaultGroup, runs, ranking.groupComparator);
      }
    }
  }

  /** Sorting the groups keeps every group a `NamedGroup`. */
  lemma SortKeepsNamed<T>(data: seq<T>, grouper: Row<T> -> Option<Group>, defaultGroup: Group,
                          gs: seq<OrderedGroup<T>>, cmp: (OrderedGroup<T>, OrderedGroup<T>) -> int)
    requires forall q :: 0 <= q < |gs| ==> NamedGroup(data, grouper, defaultGroup, gs[q])
    ensures forall k :: 0 <= k < |Sorting.SortBy(gs, cmp)| ==> NamedGroup(data, grouper, defaultGroup, Sorting.SortBy(gs, cmp)[k])
  {
    var r := Sorting.SortBy(gs, cmp);
    forall k | 0 <= k < |r| ensures NamedGroup(data, grouper, defaultGroup, r[k]) {
      assert r[k] in multiset(gs);
      var q :| 0 <= q < |gs| && gs[q] == r[k];
    }
  }

  lemma SingleGroupNamed<T>(data: seq<T>, ranking: RankingFns<T>, rankings: seq<RankingFns<T>>, filterGlobally: bool,
                            defaultGroup: Group)
    requires Survivors(ToRows(data), ranking, rankings, filterGlobally) != []
    ensures var g := AssignGroups(Survivors(ToRows(data), ranking, rankings, filterGlobally), ranking.grouper, defaultGroup);
      SameName(g) ==>
      NamedGroup(data, ranking.grouper, defaultGroup, OrderedGroup(g[0].group, GIndices(Sorting.SortBy(g, ranking.comparator)), None))
  {
    var g := AssignGroups(Survivors(ToRows(data), ranking, rankings, filterGlobally), ranking.grouper, defaultGroup);
    if SameName(g) {
      var sorted := Sorting.SortBy(g, ranking.comparator);
      var grp: OrderedGroup<T> := OrderedGroup(g[0].group, GIndices(sorted), None);
      forall j | 0 <= j < |grp.order|
        ensures 0 <= grp.order[j] < |data| && GroupOf(data, ranking.grouper, defaultGroup, grp.order[j]).name == grp.group.name
      {
        assert sorted[j] in multiset(g);
        AssignedRow(data, ranking, rankings, filterGlobally, defaultGroup, sorted[j]);
      }
      assert g[0] in multiset(sorted);
      var j :| 0 <= j < |sorted| && sorted[j] == g[0];
      AssignedRow(data, ranking, rankings, filterGlobally, defaultGroup, g[0]);
      assert grp.order[j] == g[0].row.dataIndex;
    }
  }

  lemma PartitionedGroupsNamed<T>(data: seq<T>, ranking: RankingFns<T>, rankings: seq<RankingFns<T>>, filterGlobally: bool,
                                  defaultGroup: Group, g: seq<GRow<T>>, sorted: seq<GRow<T>>)
    requires g == AssignGroups(Survivors(ToRows(data), ranking, rankings, filterGlobally), ranking.grouper, defaultGroup)
    requires multiset(sorted) == multiset(g)
    ensures forall q :: 0 <= q < |Runs(sorted)| ==> NamedGroup(data, ranking.grouper, defaultGroup, Runs(sorted)[q])
  {
    var runs := Runs(sorted);
    RunsWellFormed(sorted);
    RunsMembers(sorted);
    forall q | 0 <= q < |runs| ensures NamedGroup(data, ranking.grouper, defaultGroup, runs[q]) {
      forall j | 0 <= j < |runs[q].rows.value| ensures runs[q].rows.value[j] in g {
        assert runs[q].rows.value[j] in multiset(sorted);
      }
      RunIsNamed(data, ranking, rankings, filterGlobally, defaultGroup, runs[q]);
    }
  }

  /** A strict order on group names: a total preorder that ties only equal names. */
  ghost predicate StrictNameOrder(nameCmp: (string, string) -> int)
  {
    Sorting.TotalPreorder(nameCmp) && forall x, y :: nameCmp(x, y) <= 0 && nameCmp(y, x) <= 0 ==> x == y
  }

  lemma {:induction false} CompositeIsTotalPreorder<T(!new)>(nameCmp: (string, string) -> int, cmp: (GRow<T>, GRow<T>) -> int)
    requires StrictNameOrder(nameCmp) && Sorting.TotalPreorder(cmp)
    ensures Sorting.TotalPreorder(CompositeOrder(nameCmp, cmp))
  {
    var c := CompositeOrder(nameCmp, cmp);
    forall a, b, d | c(a, b) <= 0 && c(b, d) <= 0 ensures c(a, d) <= 0 {
    }
  }

  /** Rows sorted by the two-level comparator keep each name in one contiguous block. */
  ghost predicate Contiguous<T>(hs: seq<GRow<T>>)
  {
    forall a, b, c :: 0 <= a < b < c < |hs| && hs[a].group.name == hs[c].group.name ==> hs[b].group.name == hs[a].group.name
  }

  lemma SortedIsContiguous<T>(hs: seq<GRow<T>>, nameCmp: (string, string) -> int, cmp: (GRow<T>, GRow<T>) -> int)
    requires StrictNameOrder(nameCmp)
    requires Sorting.SortedBy(hs, CompositeOrder(nameCmp, cmp))
    ensures Contiguous(hs)
  {
    forall a, b, c | 0 <= a < b < c < |hs| && hs[a].group.name == hs[c].group.name
      ensures hs[b].group.name == hs[a].group.name
    {
      assert CompositeOrder(nameCmp, cmp)(hs[a], hs[b]) <= 0 && CompositeOrder(nameCmp, cmp)(hs[b], hs[c]) <= 0;
    }
  }

  /** When each name is one contiguous block, no two runs share a name. */
  lemma {:induction false} RunsDistinctNames<T>(hs: seq<GRow<T>>)
    requires Contiguous(hs)
    ensures forall a, b :: 0 <= a < b < |Runs(hs)| ==> Runs(hs)[a].group.name != Runs(hs)[b].group.name
  {
    if hs != [] {
      var init := hs[..|hs| - 1];
      var h := hs[|hs| - 1];
      var prev := Runs(init);
      assert Contiguous(init) by {
        forall a, b, c | 0 <= a < b < c < |init| && init[a].group.name == init[c].group.name
          ensures init[b].group.name == init[a].group.name
        {
          assert init[a] == hs[a] && init[b] == hs[b] && init[c] == hs[c];
        }
      }
      RunsDistinctNames(init);
      var r := Runs(hs);
      if prev != [] && prev[|prev| - 1].group.name == h.group.name {
        forall a, b | 0 <= a < b < |r| ensures r[a].group.name != r[b].group.name {
          assert r[a].group.name == prev[a].group.name && r[b].group.name == prev[b].group.name;
        }
      } else {
        NewRunNameFresh(hs, prev);
        forall a, b | 0 <= a < b < |r| ensures r[a].group.name != r[b].group.name {
          assert r[a] == prev[a];
        }
      }
    }
  }

  /** A row that does not join the last run has a name no earlier run has. */
  lemma {:induction false} NewRunNameFresh<T>(hs: seq<GRow<T>>, prev: seq<OrderedGroup<T>>)
    requires Contiguous(hs) && hs != [] && prev == Runs(hs[..|hs| - 1])
    requires prev == [] || prev[|prev| - 1].group.name != hs[|hs| - 1].group.name
    ensures forall a :: 0 <= a < |prev| ==> prev[a].group.name != hs[|hs| - 1].group.name
  {
    var init := hs[..|hs| - 1];
    if init != [] {
      RunsLastName(init);
      RunsWellFormed(init);
      RunsMembers(init);
      forall a | 0 <= a < |prev| ensures prev[a].group.name != hs[|hs| - 1].group.name {
        // The first row of run `a` and the last row before `h` bracket any repeat of h's name.
        var x := prev[a].rows.value[0];
        assert WellFormedRun(prev[a]);
        assert x in init;
        var m :| 0 <= m < |init| && init[m] == x;
        assert hs[m] == x && hs[|init| - 1] == init[|init| - 1];
      }
    }
  }

  /**
   * With a strict order on names and total preorders as comparators: no two groups share a
   * name, the rows of each group are sorted by the ranking's comparator, and the groups are
   * sorted by the group comparator.
   */
  lemma PipelineOrdered<T(!new)>(data: seq<T>, ranking: RankingFns<T>, rankings: seq<RankingFns<T>>, filterGlobally: bool,
                           defaultGroup: Group, nameCmp: (string, string) -> int)
    requires StrictNameOrder(nameCmp) && Sorting.TotalPreorder(ranking.comparator)
    ensures var result := Pipeline(data, ranking, rankings, filterGlobally, defaultGroup, nameCmp);
      && (forall a, b :: 0 <= a < b < |result| ==> result[a].group.name != result[b].group.name)
      && (forall k :: 0 <= k < |result| && result[k].rows.Some? ==> Sorting.SortedBy(result[k].rows.value, ranking.comparator))
      && (forall k :: 0 <= k < |result| && result[k].rows.Some? ==> result[k].order == GIndices(result[k].rows.value))
      && (Sorting.TotalPreorder(ranking.groupComparator) ==> Sorting.SortedBy(result, ranking.groupComparator))
  {
    var s := Survivors(ToRows(data), ranking, rankings, filterGlobally);
    var result := Pipeline(data, ranking, rankings, filterGlobally, defaultGroup, nameCmp);
    if |data| > 0 && |s| > 0 {
      var g := AssignGroups(s, ranking.grouper, defaultGroup);
      if !SameName(g) {
        var c := CompositeOrder(nameCmp, ranking.comparator);
        var sorted := Sorting.SortBy(g, c);
        var runs := Runs(sorted);
        CompositeIsTotalPreorder(nameCmp, ranking.comparator);
        Sorting.SortBySorted(g, c);
        SortedIsContiguous(sorted, nameCmp, ranking.comparator);
        RunsDistinctNames(sorted);
        Sorting.SortByKeepsDistinct(runs, ranking.groupComparator, GroupName);
        RunsSortedWithin(sorted, nameCmp, ranking.comparator);
        RunsWellFormed(sorted);
        forall k | 0 <= k < |result| && result[k].rows.Some?
          ensures Sorting.SortedBy(result[k].rows.value, ranking.comparator)
          ensures result[k].order == GIndices(result[k].rows.value)
        {
          assert result[k] in multiset(runs);
        }
        if Sorting.TotalPreorder(ranking.groupComparator) {
          Sorting.SortBySorted(runs, ranking.groupComparator);
        }
      }
    }
  }

  function GroupName<T>(grp: OrderedGroup<T>): string
  {
    grp.group.name
  }

  /**
   * The single-group case: when every surviving row has one group name, the result is one
   * group with the first survivor's group fields, whose order lists the rows sorted by the
   * ranking's comparator, stably (ties keep their filtered order); otherwise there are
   * several groups, each carrying its rows.
   */
  lemma PipelineSingleGroup<T(!new)>(data: seq<T>, ranking: RankingFns<T>, rankings: seq<RankingFns<T>>, filterGlobally: bool,
                                     defaultGroup: Group, nameCmp: (string, string) -> int)
    requires Survivors(ToRows(data), ranking, rankings, filterGlobally) != []
    ensures var s := Survivors(ToRows(data), ranking, rankings, filterGlobally);
      var g := AssignGroups(s, ranking.grouper, defaultGroup);
      var result := Pipeline(data, ranking, rankings, filterGlobally, defaultGroup, nameCmp);
      && (SameName(g) ==>
            && |result| == 1 && result[0].rows.None?
            && 0 <= s[0].dataIndex < |data|
            && result[0].group == GroupOf(data, ranking.grouper, defaultGroup, s[0].dataIndex)
            && (Sorting.TotalPreorder(ranking.comparator) ==>
                  exists rows :: Sorting.SortedBy(rows, ranking.comparator) && multiset(rows) == multiset(g) && result[0].order == GIndices(rows))
            && TiesKeepOrder(g, ranking.comparator, result[0].order))
      && (!SameName(g) ==> |result| >= 2 && forall k :: 0 <= k < |result| ==> result[k].rows.Some?)
  {
    var s := Survivors(ToRows(data), ranking, rankings, filterGlobally);
    var g := AssignGroups(s, ranking.grouper, defaultGroup);
    if SameName(g) {
      var result := Pipeline(data, ranking, rankings, filterGlobally, defaultGroup, nameCmp);
      PipelineOneGroup(data, ranking, rankings, filterGlobally, defaultGroup, nameCmp, s, g, result);
    } else {
      SurvivorsSpec(data, ranking, rankings, filterGlobally);
      var sorted := Sorting.SortBy(g, CompositeOrder(nameCmp, ranking.comparator));
      MixedNamesGiveSeveralRuns(g, sorted);
      var runs := Runs(sorted);
      var result := Sorting.SortBy(runs, ranking.groupComparator);
      forall k | 0 <= k < |result| ensures result[k].rows.Some? {
        assert result[k] in multiset(runs);
      }
    }
  }

  /** The single-group half of `PipelineSingleGroup`, on the named intermediate values. */
  lemma PipelineOneGroup<T(!new)>(data: seq<T>, ranking: RankingFns<T>, rankings: seq<RankingFns<T>>, filterGlobally: bool,
                                  defaultGroup: Group, nameCmp: (string, string) -> int,
                                  s: seq<Row<T>>, g: seq<GRow<T>>, result: seq<OrderedGroup<T>>)
    requires s == Survivors(ToRows(data), ranking, rankings, filterGlobally) && s != []
    requires g == AssignGroups(s, ranking.grouper, defaultGroup) && SameName(g)
    requires result == Pipeline(data, ranking, rankings, filterGlobally, defaultGroup, nameCmp)
    ensures |result| == 1 && result[0].rows.None?
    ensures 0 <= s[0].dataIndex < |data|
    ensures result[0].group == GroupOf(data, ranking.grouper, defaultGroup, s[0].dataIndex)
    ensures Sorting.TotalPreorder(ranking.comparator) ==>
      exists rows :: Sorting.SortedBy(rows, ranking.comparator) && multiset(rows) == multiset(g) && result[0].order == GIndices(rows)
    ensures TiesKeepOrder(g, ranking.comparator, result[0].order)
  {
    SurvivorsSpec(data, ranking, rankings, filterGlobally);
    AssignedIndicesDistinct(data, ranking, rankings, filterGlobally, defaultGroup);
    assert result == [OrderedGroup(g[0].group, GIndices(Sorting.SortBy(g, ranking.comparator)), None)];
    OneGroupOrder(g, ranking.comparator, result);
  }

  /** The key that tells working rows apart: the data index. */
  function RowIndex<T>(x: GRow<T>): int
  {
    x.row.dataIndex
  }

  /**
   * Stability of `sortImpl`: two surviving rows of one group, the earlier of which the
   * ranking's comparator lets come first (in particular two rows it ties), are listed in
   * that order in their group's `order`. This holds for the single group as for each group
   * of the partition.
   */
  lemma {:induction false} PipelineStable<T(!new)>(data: seq<T>, ranking: RankingFns<T>, rankings: seq<RankingFns<T>>, filterGlobally: bool,
                          defaultGroup: Group, nameCmp: (string, string) -> int)
    ensures var g := AssignGroups(Survivors(ToRows(data), ranking, rankings, filterGlobally), ranking.grouper, defaultGroup);
      var result := Pipeline(data, ranking, rankings, filterGlobally, defaultGroup, nameCmp);
      forall k, a, b, i, j ::
        && 0 <= k < |result| && 0 <= a < b < |g|
        && g[a].group.name == g[b].group.name && ranking.comparator(g[a], g[b]) <= 0
        && 0 <= i < |result[k].order| && 0 <= j < |result[k].order|
        && result[k].order[i] == g[a].row.dataIndex && result[k].order[j] == g[b].row.dataIndex
        ==> i < j
  {
    var s := Survivors(ToRows(data), ranking, rankings, filterGlobally);
    var g := AssignGroups(s, ranking.grouper, defaultGroup);
    var result := Pipeline(data, ranking, rankings, filterGlobally, defaultGroup, nameCmp);
    if |data| > 0 && |s| > 0 {
      AssignedIndicesDistinct(data, ranking, rankings, filterGlobally, defaultGroup);
      if SameName(g) {
        assert result == [OrderedGroup(g[0].group, GIndices(Sorting.SortBy(g, ranking.comparator)), None)];
        SingleGroupStable(g, ranking.comparator, result);
      } else {
        assert result == Sorting.SortBy(Runs(Sorting.SortBy(g, CompositeOrder(nameCmp, ranking.comparator))), ranking.groupComparator);
        PartitionStable(g, nameCmp, ranking.comparator, ranking.groupComparator, result);
      }
    }
  }

  /** The working rows of the pipeline have pairwise different data indices. */
  lemma AssignedIndicesDistinct<T>(data: seq<T>, ranking: RankingFns<T>, rankings: seq<RankingFns<T>>, filterGlobally: bool,
                                   defaultGroup: Group)
    ensures var g := AssignGroups(Survivors(ToRows(data), ranking, rankings, filterGlobally), ranking.grouper, defaultGroup);
      forall x, y :: 0 <= x < y < |g| ==> RowIndex(g[x]) != RowIndex(g[y])
  {
    var s := Survivors(ToRows(data), ranking, rankings, filterGlobally);
    var g := AssignGroups(s, ranking.grouper, defaultGroup);
    SurvivorsSpec(data, ranking, rankings, filterGlobally);
    assert forall x :: 0 <= x < |g| ==> g[x].row == s[x];
  }

  /** Stability of the single group, whose order lists the rows sorted by the comparator. */
  lemma {:induction false} SingleGroupStable<T(!new)>(g: seq<GRow<T>>, cmp: (GRow<T>, GRow<T>) -> int, result: seq<OrderedGroup<T>>)
    requires forall x, y :: 0 <= x < y < |g| ==> RowIndex(g[x]) != RowIndex(g[y])
    requires g != [] && result == [OrderedGroup(g[0].group, GIndices(Sorting.SortBy(g, cmp)), None)]
    ensures forall k, a, b, i, j ::
      && 0 <= k < |result| && 0 <= a < b < |g|
      && g[a].group.name == g[b].group.name && cmp(g[a], g[b]) <= 0
      && 0 <= i < |result[k].order| && 0 <= j < |result[k].order|
      && result[k].order[i] == g[a].row.dataIndex && result[k].order[j] == g[b].row.dataIndex
      ==> i < j
  {
    SortedIndicesOrder(g, cmp, result[0].order);
  }

  /**
   * Stability of an order of data indices: of two rows of `g` the earlier of which `cmp`
   * lets come first (in particular two rows it ties), the earlier is listed first.
   */
  ghost predicate TiesKeepOrder<T>(g: seq<GRow<T>>, cmp: (GRow<T>, GRow<T>) -> int, order: seq<int>)
  {
    forall a, b, i, j ::
      && 0 <= a < b < |g| && cmp(g[a], g[b]) <= 0
      && 0 <= i < |order| && 0 <= j < |order|
      && order[i] == g[a].row.dataIndex && order[j] == g[b].row.dataIndex
      ==> i < j
  }

  /** The one group of the single-group case, ordered as `SortedIndicesOrder` states. */
  lemma {:induction false} OneGroupOrder<T(!new)>(g: seq<GRow<T>>, cmp: (GRow<T>, GRow<T>) -> int, result: seq<OrderedGroup<T>>)
    requires forall x, y :: 0 <= x < y < |g| ==> RowIndex(g[x]) != RowIndex(g[y])
    requires g != [] && result == [OrderedGroup(g[0].group, GIndices(Sorting.SortBy(g, cmp)), None)]
    ensures |result| == 1 && result[0].rows.None? && result[0].group == g[0].group
    ensures Sorting.TotalPreorder(cmp) ==>
      exists rows :: Sorting.SortedBy(rows, cmp) && multiset(rows) == multiset(g) && result[0].order == GIndices(rows)
    ensures TiesKeepOrder(g, cmp, result[0].order)
  {
    SortedIndicesOrder(g, cmp, result[0].order);
  }

  /**
   * The data indices of the rows sorted by `cmp`: those of a sorted permutation of `g` when
   * `cmp` is a total preorder, and tied rows listed in their order in `g`.
   */
  lemma {:induction false} SortedIndicesOrder<T(!new)>(g: seq<GRow<T>>, cmp: (GRow<T>, GRow<T>) -> int, order: seq<int>)
    requires forall x, y :: 0 <= x < y < |g| ==> RowIndex(g[x]) != RowIndex(g[y])
    requires order == GIndices(Sorting.SortBy(g, cmp))
    ensures Sorting.TotalPreorder(cmp) ==>
      exists rows :: Sorting.SortedBy(rows, cmp) && multiset(rows) == multiset(g) && order == GIndices(rows)
    ensures forall a, b, i, j ::
      && 0 <= a < b < |g| && cmp(g[a], g[b]) <= 0
      && 0 <= i < |order| && 0 <= j < |order|
      && order[i] == g[a].row.dataIndex && order[j] == g[b].row.dataIndex
      ==> i < j
  {
    var sorted := Sorting.SortBy(g, cmp);
    if Sorting.TotalPreorder(cmp) {
      Sorting.SortBySorted(g, cmp);
    }
    forall a, b, i, j |
      && 0 <= a < b < |g| && cmp(g[a], g[b]) <= 0
      && 0 <= i < |order| && 0 <= j < |order|
      && order[i] == g[a].row.dataIndex && order[j] == g[b].row.dataIndex
      ensures i < j
    {
      SortKeepsInOrder(g, cmp, a, b);
      IndexOrderStable(g, sorted, a, b, i, j);
    }
  }

  /** Stability of every group of the partition, after the groups are sorted. */
  lemma PartitionStable<T>(g: seq<GRow<T>>, nameCmp: (string, string) -> int, cmp: (GRow<T>, GRow<T>) -> int,
                           gc: (OrderedGroup<T>, OrderedGroup<T>) -> int, result: seq<OrderedGroup<T>>)
    requires forall x, y :: 0 <= x < y < |g| ==> RowIndex(g[x]) != RowIndex(g[y])
    requires result == Sorting.SortBy(Runs(Sorting.SortBy(g, CompositeOrder(nameCmp, cmp))), gc)
    ensures forall k, a, b, i, j ::
      && 0 <= k < |result| && 0 <= a < b < |g|
      && g[a].group.name == g[b].group.name && cmp(g[a], g[b]) <= 0
      && 0 <= i < |result[k].order| && 0 <= j < |result[k].order|
      && result[k].order[i] == g[a].row.dataIndex && result[k].order[j] == g[b].row.dataIndex
      ==> i < j
  {
    var c := CompositeOrder(nameCmp, cmp);
    var sorted := Sorting.SortBy(g, c);
    var runs := Runs(sorted);
    RunsWellFormed(sorted);
    RunsCover(sorted);
    forall a, b | 0 <= a < b < |g| && c(g[a], g[b]) <= 0 ensures KeptInOrder(g, sorted, a, b) {
      SortKeepsInOrder(g, c, a, b);
    }
    forall a, b | 0 <= a < |g| && 0 <= b < |g| && g[a].group.name == g[b].group.name
      ensures c(g[a], g[b]) == cmp(g[a], g[b])
    {
      CompositeSameName(nameCmp, cmp, g[a], g[b]);
    }
    StableGroups(g, c, sorted, runs, result);
  }

  /** Within one name, the two-level comparator is the ranking's comparator. */
  lemma CompositeSameName<T>(nameCmp: (string, string) -> int, cmp: (GRow<T>, GRow<T>) -> int, x: GRow<T>, y: GRow<T>)
    requires x.group.name == y.group.name
    ensures CompositeOrder(nameCmp, cmp)(x, y) == cmp(x, y)
  {
  }

  /**
   * Stability of groups that are runs holding the stably sorted rows, in any order of the
   * groups.
   */
  lemma StableGroups<T>(g: seq<GRow<T>>, c: (GRow<T>, GRow<T>) -> int, sorted: seq<GRow<T>>,
                        runs: seq<OrderedGroup<T>>, result: seq<OrderedGroup<T>>)
    requires forall x, y :: 0 <= x < y < |g| ==> RowIndex(g[x]) != RowIndex(g[y])
    requires multiset(sorted) == multiset(g)
    requires forall a, b :: 0 <= a < b < |g| && c(g[a], g[b]) <= 0 ==> KeptInOrder(g, sorted, a, b)
    requires ConcatRows(runs) == sorted
    requires forall q :: 0 <= q < |runs| ==> WellFormedRun(runs[q])
    requires multiset(result) == multiset(runs)
    ensures forall k, a, b, i, j ::
      && 0 <= k < |result| && 0 <= a < b < |g| && c(g[a], g[b]) <= 0
      && 0 <= i < |result[k].order| && 0 <= j < |result[k].order|
      && result[k].order[i] == g[a].row.dataIndex && result[k].order[j] == g[b].row.dataIndex
      ==> i < j
  {
    forall k, a, b, i, j |
      && 0 <= k < |result| && 0 <= a < b < |g| && c(g[a], g[b]) <= 0
      && 0 <= i < |result[k].order| && 0 <= j < |result[k].order|
      && result[k].order[i] == g[a].row.dataIndex && result[k].order[j] == g[b].row.dataIndex
      ensures i < j
    {
      SortedGroupStable(g, sorted, runs, result, k, a, b, i, j);
    }
  }

  /** Stability within the group at position `k` of the sorted groups. */
  lemma SortedGroupStable<T>(g: seq<GRow<T>>, sorted: seq<GRow<T>>, runs: seq<OrderedGroup<T>>, result: seq<OrderedGroup<T>>,
                             k: int, a: int, b: int, i: int, j: int)
    requires forall x, y :: 0 <= x < y < |g| ==> RowIndex(g[x]) != RowIndex(g[y])
    requires multiset(sorted) == multiset(g)
    requires 0 <= a < |g| && 0 <= b < |g| && KeptInOrder(g, sorted, a, b)
    requires ConcatRows(runs) == sorted
    requires forall q :: 0 <= q < |runs| ==> WellFormedRun(runs[q])
    requires multiset(result) == multiset(runs) && 0 <= k < |result|
    requires 0 <= i < |result[k].order| && 0 <= j < |result[k].order|
    requires result[k].order[i] == g[a].row.dataIndex && result[k].order[j] == g[b].row.dataIndex
    ensures i < j
  {
    assert result[k] in multiset(runs);
    var q :| 0 <= q < |runs| && runs[q] == result[k];
    GroupStable(g, sorted, runs, q, a, b, i, j);
  }

  /** A row of a sorted permutation with the index of a row of `g` is that row. */
  lemma SameIndexSameRow<T>(g: seq<GRow<T>>, sorted: seq<GRow<T>>, p: int, a: int)
    requires forall x, y :: 0 <= x < y < |g| ==> RowIndex(g[x]) != RowIndex(g[y])
    requires multiset(sorted) == multiset(g)
    requires 0 <= p < |sorted| && 0 <= a < |g| && sorted[p].row.dataIndex == g[a].row.dataIndex
    ensures sorted[p] == g[a]
  {
    assert sorted[p] in multiset(g);
    var a' :| 0 <= a' < |g| && g[a'] == sorted[p];
    assert RowIndex(g[a']) == RowIndex(g[a]);
  }

  /** Rows kept in order by a stable sort of `g`: the order of their data indices. */
  ghost predicate KeptInOrder<T>(g: seq<GRow<T>>, sorted: seq<GRow<T>>, a: int, b: int)
    requires 0 <= a < |g| && 0 <= b < |g|
  {
    forall x, y :: 0 <= x < |sorted| && 0 <= y < |sorted| && sorted[x] == g[a] && sorted[y] == g[b] ==> x < y
  }

  /** `SortBy` keeps in order two rows that the comparator lets stay in order. */
  lemma SortKeepsInOrder<T>(g: seq<GRow<T>>, cmp: (GRow<T>, GRow<T>) -> int, a: int, b: int)
    requires forall x, y :: 0 <= x < y < |g| ==> RowIndex(g[x]) != RowIndex(g[y])
    requires 0 <= a < b < |g| && cmp(g[a], g[b]) <= 0
    ensures KeptInOrder(g, Sorting.SortBy(g, cmp), a, b)
  {
    Sorting.SortByStable(g, cmp, RowIndex, a, b);
  }

  /** Stability read off the data indices of the sorted rows. */
  lemma IndexOrderStable<T>(g: seq<GRow<T>>, sorted: seq<GRow<T>>, a: int, b: int, x: int, y: int)
    requires forall x, y :: 0 <= x < y < |g| ==> RowIndex(g[x]) != RowIndex(g[y])
    requires multiset(sorted) == multiset(g)
    requires 0 <= a < |g| && 0 <= b < |g| && KeptInOrder(g, sorted, a, b)
    requires 0 <= x < |sorted| && 0 <= y < |sorted|
    requires sorted[x].row.dataIndex == g[a].row.dataIndex && sorted[y].row.dataIndex == g[b].row.dataIndex
    ensures x < y
  {
    SameIndexSameRow(g, sorted, x, a);
    SameIndexSameRow(g, sorted, y, b);
  }

  /** Stability within one of several runs that together hold the sorted rows. */
  lemma {:induction false} GroupStable<T>(g: seq<GRow<T>>, sorted: seq<GRow<T>>, gs: seq<OrderedGroup<T>>, q: int,
                       a: int, b: int, i: int, j: int)
    requires forall x, y :: 0 <= x < y < |g| ==> RowIndex(g[x]) != RowIndex(g[y])
    requires multiset(sorted) == multiset(g)
    requires 0 <= a < |g| && 0 <= b < |g| && KeptInOrder(g, sorted, a, b)
    requires ConcatRows(gs) == sorted
    requires 0 <= q < |gs| && WellFormedRun(gs[q])
    requires 0 <= i < |gs[q].order| && 0 <= j < |gs[q].order|
    requires gs[q].order[i] == g[a].row.dataIndex && gs[q].order[j] == g[b].row.dataIndex
    ensures i < j
  {
    var x := RunSlot(gs, q, i);
    var y := RunSlot(gs, q, j);
    IndexOrderStable(g, sorted, a, b, x, y);
  }

  /** The position in the concatenated rows of the row behind entry `i` of group `q`'s order. */
  lemma {:induction false} RunSlot<T>(gs: seq<OrderedGroup<T>>, q: int, i: int) returns (x: int)
    requires 0 <= q < |gs| && WellFormedRun(gs[q]) && 0 <= i < |gs[q].order|
    ensures x == |ConcatRows(gs[..q])| + i
    ensures 0 <= x < |ConcatRows(gs)| && ConcatRows(gs)[x].row.dataIndex == gs[q].order[i]
  {
    var rows := gs[q].rows.value;
    assert |rows| == |gs[q].order|;
    GroupIsSlice(gs, q, i);
    x := |ConcatRows(gs[..q])| + i;
  }

  /** Each group is a slice of the concatenated rows, after the rows of the groups before it. */
  lemma GroupIsSlice<T>(gs: seq<OrderedGroup<T>>, q: int, i: int)
    requires 0 <= q < |gs| && gs[q].rows.Some? && 0 <= i < |gs[q].rows.value|
    ensures |ConcatRows(gs[..q])| + i < |ConcatRows(gs)|
    ensures ConcatRows(gs)[|ConcatRows(gs[..q])| + i] == gs[q].rows.value[i]
  {
    var before, rows, after := ConcatRows(gs[..q]), gs[q].rows.value, ConcatRows(gs[q + 1..]);
    assert gs == gs[..q] + [gs[q]] + gs[q + 1..];
    ConcatRowsAppend(gs[..q] + [gs[q]], gs[q + 1..]);
    ConcatRowsAppend(gs[..q], [gs[q]]);
    assert ConcatRows([gs[q]]) == rows;
    assert ConcatRows(gs) == before + rows + after;
    assert (before + rows + after)[|before| + i] == rows[i];
  }

  /** Rows with more than one name never form a single run. */
  lemma MixedNamesGiveSeveralRuns<T>(g: seq<GRow<T>>, sorted: seq<GRow<T>>)
    requires multiset(sorted) == multiset(g) && !SameName(g)
    ensures |Runs(sorted)| >= 2
  {
    var runs := Runs(sorted);
    var k :| 0 <= k < |g| && g[k].group.name != g[0].group.name;
    assert g[k] in multiset(sorted) && g[0] in multiset(sorted);
    var a :| 0 <= a < |sorted| && sorted[a] == g[k];
    var b :| 0 <= b < |sorted| && sorted[b] == g[0];
    RunsWellFormed(sorted);
    RunsCover(sorted);
  }

  /** The loop of `sortImpl` that starts a new group at each change of group name. */
  method Partition<T>(hs: seq<GRow<T>>) returns (groups: seq<OrderedGroup<T>>)
    requires |hs| > 0
    ensures groups == Runs(hs)
  {
    groups := [OrderedGroup(hs[0].group, [], Some([]))];
    for i := 0 to |hs|
      invariant i == 0 ==> groups == [OrderedGroup(hs[0].group, [], Some([]))]
      invariant i > 0 ==> groups == Runs(hs[..i])
    {
      var row := hs[i];
      var group := groups[|groups| - 1];
      RunsPrefix(hs, i);
      if i == 0 {
        assert hs[..0] == [];
      }
      if row.group.name == group.group.name {
        group := group.(order := group.order + [row.row.dataIndex], rows := Some(group.rows.value + [row]));
        groups := groups[..|groups| - 1] + [group];
        if i == 0 {
          assert group.order == [row.row.dataIndex] && group.rows.value == [row];
        }
      } else {
        groups := groups + [OrderedGroup(row.group, [row.row.dataIndex], Some([row]))];
      }
    }
    assert hs[..|hs|] == hs;
  }

  /**
   * `sortImpl(ranking)`: wraps every item with its index, filters, assigns groups, and then
   * either sorts the single group or sorts by group name and comparator, partitions the
   * rows into groups and sorts the groups.
   */
  method SortImpl<T>(data: seq<T>, ranking: RankingFns<T>, rankings: seq<RankingFns<T>>, filterGlobally: bool,
                     defaultGroup: Group, nameCmp: (string, string) -> int) returns (groups: seq<OrderedGroup<T>>)
    ensures groups == Pipeline(data, ranking, rankings, filterGlobally, defaultGroup, nameCmp)
  {
    if |data| == 0 {
      return [];
    }
    var helper := ToRows(data);
    if filterGlobally {
      var filtered := Filter(rankings, IsFiltered);
      if |filtered| > 0 {
        helper := Filter(helper, PassesFilters(filtered));
      }
    } else if ranking.isFiltered {
      helper := Filter(helper, ranking.filter);
    }
    if |helper| == 0 {
      return [];
    }
    var grouped: seq<GRow<T>> := [];
    for i := 0 to |helper|
      invariant |grouped| == i
      invariant forall k :: 0 <= k < i ==> grouped[k] == GRow(helper[k], ranking.grouper(helper[k]).GetOr(defaultGroup))
    {
      grouped := grouped + [GRow(helper[i], ranking.grouper(helper[i]).GetOr(defaultGroup))];
    }
    assert grouped == AssignGroups(helper, ranking.grouper, defaultGroup);
    if SameName(grouped) {
      var group := grouped[0].group;
      var sorted := Sorting.SortBy(grouped, ranking.comparator);
      return [OrderedGroup(group, GIndices(sorted), None)];
    }
    var sorted := Sorting.SortBy(grouped, CompositeOrder(nameCmp, ranking.comparator));
    groups := Partition(sorted);
    groups := Sorting.SortBy(groups, ranking.groupComparator);
  }

  // ---------------------------------------------------------------------------
  // The provider's row state

  lemma {:induction false} FilterAppend<X>(a: seq<X>, b: seq<X>, p: X -> bool)
    ensures Filter(a + b, p) == Filter(a, p) + Filter(b, p)
  {
    if a != [] {
      FilterAppend(a[1..], b, p);
      assert (a + b)[0] == a[0] && (a + b)[1..] == a[1..] + b;
    } else {
      assert a + b == b;
    }
  }

  /** The rankings of `rs` other than `source`: those `reorderAll` marks dirty. */
  function Others(rs: seq<DataProvider.Ranking>, source: Option<DataProvider.Ranking>): seq<DataProvider.Ranking>
  {
    Filter(rs, (r: DataProvider.Ranking) => Some(r) != source)
  }

  /** `reorderAll` marks every ranking but the event's source; called directly, every ranking. */
  lemma {:induction false} OthersSpec(rs: seq<DataProvider.Ranking>, source: Option<DataProvider.Ranking>)
    ensures forall r :: r in Others(rs, source) <==> r in rs && Some(r) != source
    ensures source.None? ==> Others(rs, source) == rs
  {
    FilterSpec(rs, (r: DataProvider.Ranking) => Some(r) != source);
    if source.None? {
      OthersNone(rs);
    }
  }

  lemma {:induction false} OthersNone(rs: seq<DataProvider.Ranking>)
    ensures Others(rs, None) == rs
  {
    if rs != [] {
      OthersNone(rs[1..]);
      assert rs == [rs[0]] + rs[1..];
    }
  }

  lemma OthersStep(rs: seq<DataProvider.Ranking>, k: nat, source: Option<DataProvider.Ranking>)
    requires k < |rs|
    ensures Others(rs[..k + 1], source) == Others(rs[..k], source) + (if Some(rs[k]) != source then [rs[k]] else [])
  {
    assert rs[..k + 1] == rs[..k] + [rs[k]];
    FilterAppend(rs[..k], [rs[k]], (r: DataProvider.Ranking) => Some(r) != source);
    assert [rs[k]][1..] == [];
  }

  /** `toRows` numbering from `start`, as rows that follow `start` items need. */
  function ToRowsFrom<T>(data: seq<T>, start: int): (r: seq<Row<T>>)
    ensures |r| == |data|
  {
    seq(|data|, i requires 0 <= i < |data| => Row(data[i], start + i))
  }

  /**
   * Numbering from 0 is `toRows`, and numbering a concatenation numbers its second part on
   * from where the first part stops: the rows of the whole data set are those of its old
   * items followed by the batch's numbered from the old length.
   */
  lemma ToRowsFromAppend<T>(a: seq<T>, b: seq<T>, start: int)
    ensures ToRowsFrom(a, 0) == ToRows(a)
    ensures ToRowsFrom(a + b, start) == ToRowsFrom(a, start) + ToRowsFrom(b, start + |a|)
  {
    var l, r := ToRowsFrom(a + b, start), ToRowsFrom(a, start) + ToRowsFrom(b, start + |a|);
    forall i | 0 <= i < |l| ensures l[i] == r[i] {
      if i >= |a| {
        assert (a + b)[i] == b[i - |a|];
      }
    }
  }

  /** The item at `i`, or `None` where JavaScript reads `undefined`. */
  function At<X>(s: seq<X>, i: int): (r: Option<X>)
    ensures r.Some? <==> 0 <= i < |s|
    ensures r.Some? ==> r.value == s[i]
  {
    if 0 <= i < |s| then Some(s[i]) else None
  }

  /** `sub` occurs in `s` starting at position `i`. */
  predicate OccursAt(s: string, sub: string, i: int)
  {
    0 <= i <= |s| - |sub| && s[i..i + |sub|] == sub
  }

  /** `s.indexOf(sub) >= 0`. */
  predicate Contains(s: string, sub: string)
  {
    exists i :: 0 <= i <= |s| - |sub| && OccursAt(s, sub, i)
  }

  /**
   * The in-memory provider: the items `_data`, their rows `_dataRows`, and the rankings
   * `dirtyOrder` was called on, in call order. `base` is the `ADataProvider` part, whose
   * ranking list `reorderAll` walks.
   */
  class LocalDataProvider<T> {
    var data: seq<T>
    var dataRows: seq<Row<T>>
    var dirtied: seq<DataProvider.Ranking>
    const base: DataProvider.Provider

    /** Every row is its item together with the item's position in the data. */
    ghost predicate Valid()
      reads this
    {
      |dataRows| == |data| && forall i :: 0 <= i < |data| ==> dataRows[i] == Row(data[i], i)
    }

    /** `new LocalDataProvider(data, ...)`: the rows are `toRows(data)`. */
    constructor(data0: seq<T>, base0: DataProvider.Provider)
      ensures Valid()
      ensures data == data0 && dataRows == ToRows(data0) && dirtied == [] && base == base0
    {
      data, dataRows, dirtied, base := data0, ToRows(data0), [], base0;
    }

    /**
     * `reorderAll` with `this.source` the given ranking (`None` for a direct call): marks
     * every ranking of the list but the source dirty, in list order.
     */
    method ReorderAll(source: Option<DataProvider.Ranking>)
      modifies this
      ensures dirtied == old(dirtied) + Others(base.rankings, source)
      ensures data == old(data) && dataRows == old(dataRows)
    {
      var rs := base.rankings;
      for k := 0 to |rs|
        invariant dirtied == old(dirtied) + Others(rs[..k], source)
        invariant data == old(data) && dataRows == old(dataRows)
      {
        OthersStep(rs, k, source);
        if Some(rs[k]) != source {
          dirtied := dirtied + [rs[k]];
        }
      }
      assert rs[..|rs|] == rs;
    }

    /** `setData(data)`: replaces the items, renumbers the rows and marks every ranking dirty. */
    method SetData(d: seq<T>)
      modifies this
      ensures Valid()
      ensures data == d && dataRows == ToRows(d)
      ensures dirtied == old(dirtied) + base.rankings
    {
      data := d;
      dataRows := ToRows(d);
      ReorderAll(None);
      OthersSpec(base.rankings, None);
    }

    /** `clearData()`: `setData([])`. */
    method ClearData()
      modifies this
      ensures Valid() && data == [] && dataRows == []
      ensures dirtied == old(dirtied) + base.rankings
    {
      SetData([]);
    }

    /**
     * `appendData(batch)` as written: the new rows come from `toRows(batch)`, so their
     * `dataIndex` is the position within the batch, not within the data.
     */
    method AppendData(batch: seq<T>)
      modifies this
      ensures data == old(data) + batch && dataRows == old(dataRows) + ToRows(batch)
      ensures dirtied == old(dirtied) + base.rankings
    {
      data := data + batch;
      dataRows := dataRows + ToRows(batch);
      ReorderAll(None);
      OthersSpec(base.rankings, None);
    }

    /**
     * `appendData` numbering the new rows after the existing items, which keeps `Valid`:
     * the rows are what `setData` of the whole data set would build.
     */
    method AppendDataIntended(batch: seq<T>)
      requires Valid()
      modifies this
      ensures Valid()
      ensures data == old(data) + batch && dataRows == old(dataRows) + ToRowsFrom(batch, |old(data)|)
      ensures dataRows == ToRows(data)
      ensures dirtied == old(dirtied) + base.rankings
    {
      ToRowsFromAppend(data, batch, 0);
      assert dataRows == ToRows(data);
      dataRows := dataRows + ToRowsFrom(batch, |data|);
      data := data + batch;
      ReorderAll(None);
      OthersSpec(base.rankings, None);
    }

    /** `viewRaw(indices)`: the item at each index, `None` outside the data. */
    function ViewRaw(indices: seq<int>): (r: seq<Option<T>>)
      reads this
      ensures |r| == |indices|
      ensures forall k :: 0 <= k < |indices| ==> (r[k].Some? <==> 0 <= indices[k] < |data|)
      ensures forall k :: 0 <= k < |indices| && r[k].Some? ==> r[k].value == data[indices[k]]
    {
      seq(|indices|, k requires 0 <= k < |indices| reads this => At(data, indices[k]))
    }

    /** `viewRawRows(indices)`: the row at each index, `None` outside the rows. */
    function ViewRawRows(indices: seq<int>): (r: seq<Option<Row<T>>>)
      reads this
      ensures |r| == |indices|
      ensures forall k :: 0 <= k < |indices| ==> (r[k].Some? <==> 0 <= indices[k] < |dataRows|)
      ensures forall k :: 0 <= k < |indices| && r[k].Some? ==> r[k].value == dataRows[indices[k]]
    {
      seq(|indices|, k requires 0 <= k < |indices| reads this => At(dataRows, indices[k]))
    }

    /** `fetch(orders)`: `viewRawRows` of every order. */
    function Fetch(orders: seq<seq<int>>): (r: seq<seq<Option<Row<T>>>>)
      reads this
      ensures |r| == |orders| && forall i :: 0 <= i < |orders| ==> |r[i]| == |orders[i]|
      ensures forall i, j :: 0 <= i < |orders| && 0 <= j < |orders[i]| ==>
        (r[i][j].Some? <==> 0 <= orders[i][j] < |dataRows|)
      ensures forall i, j :: 0 <= i < |orders| && 0 <= j < |orders[i]| && r[i][j].Some? ==>
        r[i][j].value == dataRows[orders[i][j]]
    {
      seq(|orders|, i requires 0 <= i < |orders| reads this => ViewRawRows(orders[i]))
    }

    /**
     * `searchAndJump(search, col)` for a string: the indices, ascending, of the rows whose
     * lower-cased label contains the lower-cased search text. `lower` is `toLowerCase`
     * and `label` is `col.getLabel`.
     */
    method SearchAndJump(search: string, labelOf: Row<T> -> string, lower: string -> string) returns (indices: seq<int>)
      ensures forall a, b :: 0 <= a < b < |indices| ==> indices[a] < indices[b]
      ensures forall a :: 0 <= a < |indices| ==> 0 <= indices[a] < |dataRows|
      ensures forall i :: 0 <= i < |dataRows| ==>
        (i in indices <==> Contains(lower(labelOf(dataRows[i])), lower(search)))
    {
      var needle := lower(search);
      indices := [];
      for i := 0 to |dataRows|
        invariant forall a, b :: 0 <= a < b < |indices| ==> indices[a] < indices[b]
        invariant forall a :: 0 <= a < |indices| ==> 0 <= indices[a] < i
        invariant forall j :: 0 <= j < |dataRows| ==>
          (j in indices <==> j < i && Contains(lower(labelOf(dataRows[j])), needle))
      {
        if Contains(lower(labelOf(dataRows[i])), needle) {
          indices := indices + [i];
        }
      }
    }
  }

  /** Under `Valid`, `viewRawRows` finds at each index the row of the item `viewRaw` finds. */
  lemma ViewRowsAgree<T>(p: LocalDataProvider<T>, indices: seq<int>)
    requires p.Valid()
    ensures forall k :: 0 <= k < |indices| ==>
      (p.ViewRawRows(indices)[k].Some? <==> p.ViewRaw(indices)[k].Some?)
    ensures forall k :: 0 <= k < |indices| && p.ViewRaw(indices)[k].Some? ==>
      p.ViewRawRows(indices)[k].value == Row(p.ViewRaw(indices)[k].value, indices[k])
  {
    forall k | 0 <= k < |indices|
      ensures p.ViewRaw(indices)[k] == At(p.data, indices[k]) && p.ViewRawRows(indices)[k] == At(p.dataRows, indices[k])
    {
    }
  }

  /**
   * Under `Valid`, `fetch` finds a row exactly at the indices inside the data, and the row
   * found is the item there together with the index it was fetched at.
   */
  lemma FetchedRowsCarryIndex<T>(p: LocalDataProvider<T>, orders: seq<seq<int>>)
    requires p.Valid()
    ensures forall i, j :: 0 <= i < |orders| && 0 <= j < |orders[i]| ==>
      (p.Fetch(orders)[i][j].Some? <==> 0 <= orders[i][j] < |p.data|)
    ensures forall i, j :: 0 <= i < |orders| && 0 <= j < |orders[i]| && p.Fetch(orders)[i][j].Some? ==>
      p.Fetch(orders)[i][j].value == Row(p.data[orders[i][j]], orders[i][j])
  {
    forall i, j | 0 <= i < |orders| && 0 <= j < |orders[i]|
      ensures p.Fetch(orders)[i][j] == At(p.dataRows, orders[i][j])
    {
      assert p.Fetch(orders)[i] == p.ViewRawRows(orders[i]);
    }
  }

  /** The order of each group, as `fetch` receives them. */
  function Orders<T>(gs: seq<OrderedGroup<T>>): (os: seq<seq<int>>)
    ensures |os| == |gs| && forall g :: 0 <= g < |gs| ==> os[g] == gs[g].order
  {
    seq(|gs|, g requires 0 <= g < |gs| => gs[g].order)
  }

  /** Every index in a group's order is in the concatenation of all the orders. */
  lemma {:induction false} InConcatOrders<T>(gs: seq<OrderedGroup<T>>, g: nat, j: nat)
    requires g < |gs| && j < |gs[g].order|
    ensures gs[g].order[j] in ConcatOrders(gs)
    decreases g
  {
    if g > 0 {
      assert gs[1..][g - 1] == gs[g];
      InConcatOrders(gs[1..], g - 1, j);
    }
  }

  /**
   * Fetching the orders `sortImpl` returns finds a row at every position: the row of an
   * item that passed the filters, carrying its own index.
   */
  lemma FetchSortedRows<T>(p: LocalDataProvider<T>, ranking: RankingFns<T>, rankings: seq<RankingFns<T>>,
                           filterGlobally: bool, defaultGroup: Group, nameCmp: (string, string) -> int)
    requires p.Valid()
    ensures var gs := Pipeline(p.data, ranking, rankings, filterGlobally, defaultGroup, nameCmp);
      forall g, j :: 0 <= g < |gs| && 0 <= j < |gs[g].order| ==>
        var i := gs[g].order[j];
        && 0 <= i < |p.data|
        && Kept(ranking, rankings, filterGlobally, Row(p.data[i], i))
        && p.Fetch(Orders(gs))[g][j] == Some(Row(p.data[i], i))
  {
    var gs := Pipeline(p.data, ranking, rankings, filterGlobally, defaultGroup, nameCmp);
    var os := Orders(gs);
    PipelineArgsort(p.data, ranking, rankings, filterGlobally, defaultGroup, nameCmp);
    FetchedRowsCarryIndex(p, os);
    forall g, j | 0 <= g < |gs| && 0 <= j < |gs[g].order|
      ensures var i := gs[g].order[j];
        && 0 <= i < |p.data|
        && Kept(ranking, rankings, filterGlobally, Row(p.data[i], i))
        && p.Fetch(os)[g][j] == Some(Row(p.data[i], i))
    {
      var i := gs[g].order[j];
      InConcatOrders(gs, g, j);
      assert multiset(ConcatOrders(gs))[i] > 0;
      assert os[g][j] == i;
    }
  }

  /**
   * The rows `stats(indices)` works on: `getD()` looks them up with `viewRawRows` on its
   * first call and keeps them.
   */
  class StatsRows<T> {
    const provider: LocalDataProvider<T>
    const indices: seq<int>
    var d: Option<seq<Option<Row<T>>>>

    constructor(p: LocalDataProvider<T>, indices0: seq<int>)
      ensures provider == p && indices == indices0 && d == None
    {
      provider, indices, d := p, indices0, None;
    }

    /** `getD()`: the first call looks the rows up, later calls return the same rows. */
    method GetD() returns (rows: seq<Option<Row<T>>>)
      modifies this
      ensures old(d).None? ==> rows == provider.ViewRawRows(indices)
      ensures old(d).Some? ==> rows == old(d).value
      ensures d == Some(rows)
    {
      if d.None? {
        d := Some(provider.ViewRawRows(indices));
      }
      rows := d.value;
    }
  }

  // ---------------------------------------------------------------------------
  // Worked row bookkeeping

  /** `appendData` as written: after `[10]` then `[20]`, the row at position 1 says `dataIndex` 0. */
  method AppendDataRestartsIndex() returns (position: int, row: Row<int>)
    ensures position == 1 && row == Row(20, 0)
  {
    var base := new DataProvider.Provider({});
    var p := new LocalDataProvider<int>([10], base);
    p.AppendData([20]);
    position := 1;
    row := p.dataRows[1];
  }

  /** The intended `appendData` gives the same row `dataIndex` 1 and keeps `Valid`. */
  method AppendDataIntendedNumbers() returns (position: int, row: Row<int>)
    ensures position == 1 && row == Row(20, 1)
  {
    var base := new DataProvider.Provider({});
    var p := new LocalDataProvider<int>([10], base);
    p.AppendDataIntended([20]);
    position := 1;
    row := p.dataRows[1];
  }

  /** The rows `stats` caches do not follow a later `setData`. */
  method StatsRowsStayCached() returns (first: seq<Option<Row<int>>>, second: seq<Option<Row<int>>>)
    ensures first == second == [Some(Row(10, 0))]
  {
    var base := new DataProvider.Provider({});
    var p := new LocalDataProvider<int>([10], base);
    var st := new StatsRows(p, [0]);
    assert p.ViewRawRows([0])[0] == At(p.dataRows, 0);
    first := st.GetD();
    p.SetData([30]);
    second := st.GetD();
  }
}
