/**
 * The state of `ADataProvider` (`src/provider/ADataProvider.ts`): the selection, the list
 * of rankings, the column id counter `uid`, column creation by type tag, `find`, `dump` and
 * `restore`, and `deriveDefault`. The text `exportTable` builds is in module `Export`.
 *
 * The selection is a d3 set of the `String` forms of row indices; since `String` is
 * injective on integers (`Strings.IntToStringInjective`), it is modelled as a `set<int>`.
 * Events the provider fires are appended to `events`; the rankings handed to
 * `triggerReorder` (which sorts asynchronously and sets the ranking's order) are appended
 * to `reorders`.
 */
module DataProvider {
  import opened Wrappers
  import opened Seqs
  import Strings
  import Sorting

  /** An `IColumnDesc`: its type tag and its `label` (here `caption`). */
  datatype Desc = Desc(columnType: string, caption: string)

  /** A column: its id and its description. */
  datatype Column = Column(id: string, desc: Desc)

  const RankType: string := "rank"

  /** The description `createRankDesc()` makes. */
  const RankDesc: Desc := Desc(RankType, "Rank")

  /** A `Ranking` as the provider sees it: its columns. */
  class Ranking {
    var children: seq<Column>

    constructor()
      ensures children == []
    {
      children := [];
    }

    /** The ranking's columns have the descriptions `ds`, in order. */
    ghost predicate HasLayout(ds: seq<Desc>)
      reads this
    {
      Descs(children) == ds
    }

    /** `ranking.push(col)`: appends the column. */
    method Push(c: Column)
      modifies this
      ensures children == old(children) + [c]
    {
      children := children + [c];
    }

    /** `ranking.insert(col, index)`: inserts the column as `splice(index, 0, col)` would. */
    method Insert(c: Column, index: int)
      modifies this
      ensures children == Splice(old(children), index, c)
    {
      children := Splice(children, index, c);
    }
  }

  /** What the provider fires: `selectionChanged`, or a bundle of ranking-list events. */
  datatype Event =
    | SelectionChanged(selection: set<int>, jump: bool)
    | RankingsChanged(kinds: seq<string>, ranking: Option<Ranking>, index: Option<int>)

  const AddedKinds: seq<string> := ["addRanking", "dirtyHeader", "dirtyValues", "dirty"]
  const RemovedKinds: seq<string> := ["removeRanking", "dirtyHeader", "dirtyValues", "dirty"]

  // ---------------------------------------------------------------------------
  // Sequence helpers with JavaScript's semantics

  /** Where `splice(index, ...)` starts: a negative index counts from the end; clamped. */
  function ClampIndex(len: nat, index: int): (k: nat)
    ensures k <= len
  {
    if index < 0 then (if len + index < 0 then 0 else len + index) else if index > len then len else index
  }

  /**
   * What the clamping means for a caller: a position of the array stays where it is, a
   * negative index names the same position as the index plus the length, an index past
   * either end goes to that end, and clamping again changes nothing.
   */
  lemma ClampIndexLaws(len: nat, index: int)
    ensures 0 <= index <= len ==> ClampIndex(len, index) == index
    ensures index < 0 <= len + index ==> ClampIndex(len, index) == ClampIndex(len, index + len)
    ensures len + index < 0 ==> ClampIndex(len, index) == 0
    ensures len < index ==> ClampIndex(len, index) == len
    ensures ClampIndex(len, ClampIndex(len, index)) == ClampIndex(len, index)
  {
  }

  /** `s.splice(index, 0, x)`, as the resulting array. */
  function Splice<X>(s: seq<X>, index: int, x: X): (r: seq<X>)
    ensures |r| == |s| + 1
    ensures r[ClampIndex(|s|, index)] == x
    ensures RemoveAt(r, ClampIndex(|s|, index)) == s
    ensures multiset(r) == multiset(s) + multiset{x}
  {
    var k := ClampIndex(|s|, index);
    var r := s[..k] + [x] + s[k..];
    assert r[..k] == s[..k] && r[k + 1..] == s[k..];
    assert s == s[..k] + s[k..];
    r
  }

  /** `s.splice(i, 1)`, as the resulting array. */
  function RemoveAt<X>(s: seq<X>, i: nat): (r: seq<X>)
    requires i < |s|
    ensures |r| == |s| - 1
  {
    s[..i] + s[i + 1..]
  }

  /** Inserting a ranking the list does not hold and removing it again restores the list. */
  lemma InsertRemoveRoundTrip<X>(s: seq<X>, index: int, x: X)
    requires x !in s
    ensures IndexOf(Splice(s, index, x), x) == ClampIndex(|s|, index)
    ensures RemoveAt(Splice(s, index, x), ClampIndex(|s|, index)) == s
  {
    var k := ClampIndex(|s|, index);
    var r := Splice(s, index, x);
    assert r[..k] == s[..k];
    assert x !in r[..k];
    assert r[..k] + r[k + 1..] == s[..k] + s[k..];
    assert s[..k] + s[k..] == s;
  }

  // ---------------------------------------------------------------------------
  // Column ids

  /** The id `nextId` hands out for counter value `n`. */
  function ColumnId(n: int): string
  {
    "col" + Strings.IntToString(n)
  }

  /** Different counter values give different ids. */
  lemma ColumnIdInjective(a: int, b: int)
    requires ColumnId(a) == ColumnId(b)
    ensures a == b
  {
    assert ColumnId(a)[3..] == Strings.IntToString(a);
    assert ColumnId(b)[3..] == Strings.IntToString(b);
    Strings.IntToStringInjective(a, b);
  }

  /** The columns with fresh ids `col<start>`, `col<start+1>`, ... in order, as `assignNewId` gives them. */
  function Renumbered(cs: seq<Column>, start: int): (r: seq<Column>)
    ensures |r| == |cs|
    ensures forall j :: 0 <= j < |r| ==> r[j] == cs[j].(id := ColumnId(start + j))
  {
    seq(|cs|, j requires 0 <= j < |cs| => cs[j].(id := ColumnId(start + j)))
  }

  /** Renumbering gives pairwise different ids and keeps every description. */
  lemma RenumberedDistinct(cs: seq<Column>, start: int)
    ensures forall a, b :: 0 <= a < b < |cs| ==> Renumbered(cs, start)[a].id != Renumbered(cs, start)[b].id
    ensures forall j :: 0 <= j < |cs| ==> Renumbered(cs, start)[j].desc == cs[j].desc
  {
    var r := Renumbered(cs, start);
    forall a, b | 0 <= a < b < |cs| ensures r[a].id != r[b].id {
      if r[a].id == r[b].id {
        ColumnIdInjective(start + a, start + b);
      }
    }
  }

  /** No column of `cs` passes the filter. */
  predicate NoMatch(cs: seq<Column>, filter: Column -> bool)
  {
    forall j :: 0 <= j < |cs| ==> !filter(cs[j])
  }

  /** The position of the first column the filter accepts, or -1 (`ranking.find`). */
  method FirstMatch(cs: seq<Column>, filter: Column -> bool) returns (j: int)
    ensures -1 <= j < |cs|
    ensures j == -1 <==> NoMatch(cs, filter)
    ensures 0 <= j ==> filter(cs[j]) && NoMatch(cs[..j], filter)
  {
    j := 0;
    while j < |cs|
      invariant 0 <= j <= |cs|
      invariant NoMatch(cs[..j], filter)
    {
      if filter(cs[j]) {
        return;
      }
      assert cs[..j + 1] == cs[..j] + [cs[j]];
      j := j + 1;
    }
    assert cs[..j] == cs;
    j := -1;
  }

  lemma AddedEventsStep(rs: seq<Ranking>, r: Ranking)
    ensures AddedEvents(rs + [r]) == AddedEvents(rs) + [RankingsChanged(AddedKinds, Some(r), Some(|rs|))]
  {
    var a, b := AddedEvents(rs + [r]), AddedEvents(rs) + [RankingsChanged(AddedKinds, Some(r), Some(|rs|))];
    assert |a| == |b|;
    forall i | 0 <= i < |a| ensures a[i] == b[i] {
      if i < |rs| {
        assert (rs + [r])[i] == rs[i];
      }
    }
  }

  // ---------------------------------------------------------------------------
  // Dumps

  /** A dumped ranking: the column dumps `Ranking.restore` rebuilds it from. */
  datatype RankingDump = RankingDump(columns: seq<Column>)

  /** What `dump()` produces and `restore` reads; a field the dump lacks is `None`. */
  datatype ProviderDump = ProviderDump(uid: Option<int>, selection: Option<seq<int>>, rankings: Option<seq<RankingDump>>)

  /** Whether some column is a rank column. */
  predicate HasRank(cs: seq<Column>)
  {
    exists j :: 0 <= j < |cs| && cs[j].desc.columnType == RankType
  }

  /** The descriptions of the columns, in order. */
  function Descs(cs: seq<Column>): (ds: seq<Desc>)
    ensures |ds| == |cs|
    ensures forall j :: 0 <= j < |cs| ==> ds[j] == cs[j].desc
  {
    seq(|cs|, j requires 0 <= j < |cs| => cs[j].desc)
  }

  /** Columns with an empty id for the given descriptions, ready to be renumbered. */
  function Blank(ds: seq<Desc>): (cs: seq<Column>)
    ensures Descs(cs) == ds
  {
    seq(|ds|, j requires 0 <= j < |ds| => Column("", ds[j]))
  }

  /**
   * The column dumps `Ranking.restore` keeps, in order: `createHelper` gives null for a
   * description without a type tag.
   */
  function Kept(cs: seq<Column>): (r: seq<Column>)
    ensures |r| <= |cs|
  {
    if cs == [] then []
    else Kept(cs[..|cs| - 1]) + (if cs[|cs| - 1].desc.columnType != "" then [cs[|cs| - 1]] else [])
  }

  /** A column dump is kept exactly when it has a type tag. */
  lemma {:induction false} KeptIff(cs: seq<Column>, c: Column)
    ensures c in Kept(cs) <==> c in cs && c.desc.columnType != ""
  {
    if cs != [] {
      var init := cs[..|cs| - 1];
      KeptIff(init, c);
      assert cs == init + [cs[|cs| - 1]];
    }
  }

  /** Every typed column dump names a registered type (otherwise `new type(...)` throws). */
  predicate Known(cs: seq<Column>, types: set<string>)
  {
    cs == [] || (Known(cs[..|cs| - 1], types) && KnownColumn(cs[|cs| - 1], types))
  }

  predicate KnownColumn(c: Column, types: set<string>)
  {
    c.desc.columnType != "" ==> c.desc.columnType in types
  }

  lemma {:induction false} KnownIff(cs: seq<Column>, types: set<string>)
    ensures Known(cs, types) <==> forall j :: 0 <= j < |cs| ==> KnownColumn(cs[j], types)
  {
    if cs != [] {
      var init := cs[..|cs| - 1];
      KnownIff(init, types);
      assert forall j :: 0 <= j < |init| ==> init[j] == cs[j];
    }
  }

  /** Every dumped ranking is `Known`. */
  predicate AllKnown(rds: seq<RankingDump>, types: set<string>)
  {
    rds == [] || (AllKnown(rds[..|rds| - 1], types) && Known(rds[|rds| - 1].columns, types))
  }

  lemma {:induction false} AllKnownIff(rds: seq<RankingDump>, types: set<string>)
    ensures AllKnown(rds, types) <==> forall k :: 0 <= k < |rds| ==> Known(rds[k].columns, types)
  {
    if rds != [] {
      var init := rds[..|rds| - 1];
      AllKnownIff(init, types);
      assert forall k :: 0 <= k < |init| ==> init[k] == rds[k];
    }
  }

  /** A dump whose first rankings are not all known is not known. */
  lemma {:induction false} AllKnownPrefix(rds: seq<RankingDump>, k: nat, types: set<string>)
    requires k <= |rds|
    ensures AllKnown(rds, types) ==> AllKnown(rds[..k], types)
    decreases |rds|
  {
    if k < |rds| {
      var init := rds[..|rds| - 1];
      AllKnownPrefix(init, k, types);
      assert init[..k] == rds[..k];
    } else {
      assert rds[..k] == rds;
    }
  }

  lemma AllKnownStep(rds: seq<RankingDump>, k: nat, types: set<string>)
    requires k < |rds|
    ensures AllKnown(rds[..k + 1], types) <==> AllKnown(rds[..k], types) && Known(rds[k].columns, types)
  {
    assert rds[..k + 1][..k] == rds[..k];
  }

  lemma KnownStep(cs: seq<Column>, j: nat, types: set<string>)
    requires j < |cs|
    ensures Known(cs[..j + 1], types) <==> Known(cs[..j], types) && KnownColumn(cs[j], types)
  {
    assert cs[..j + 1][..j] == cs[..j];
  }

  /** A column dump that names an unregistered type makes the whole dump unknown. */
  lemma UnknownColumn(cs: seq<Column>, j: nat, types: set<string>)
    requires j < |cs| && !KnownColumn(cs[j], types)
    ensures !Known(cs, types)
  {
    KnownIff(cs, types);
  }

  /** Whether `restore` inserts a rank column into the ranking restored from `cs`. */
  function Repaired(cs: seq<Column>): nat
  {
    if HasRank(Kept(cs)) then 0 else 1
  }

  /** The descriptions of a restored ranking: the kept ones, behind a new rank column if none is a rank column. */
  function Layout(cs: seq<Column>): seq<Desc>
  {
    if HasRank(Kept(cs)) then Descs(Kept(cs)) else [RankDesc] + Descs(Kept(cs))
  }

  /** The layout of every dumped ranking. */
  function Layouts(rds: seq<RankingDump>): (ls: seq<seq<Desc>>)
    ensures |ls| == |rds|
    ensures forall k :: 0 <= k < |rds| ==> ls[k] == Layout(rds[k].columns)
  {
    seq(|rds|, k requires 0 <= k < |rds| => Layout(rds[k].columns))
  }

  /** How many rank columns restoring the rankings inserts. */
  function Repairs(rds: seq<RankingDump>): nat
  {
    if rds == [] then 0 else Repairs(rds[..|rds| - 1]) + Repaired(rds[|rds| - 1].columns)
  }

  /** The total number of entries. */
  function TotalLen<X>(ls: seq<seq<X>>): nat
  {
    if ls == [] then 0 else TotalLen(ls[..|ls| - 1]) + |ls[|ls| - 1]|
  }

  lemma TotalLenStep<X>(ls: seq<seq<X>>, k: nat)
    requires k < |ls|
    ensures TotalLen(ls[..k + 1]) == TotalLen(ls[..k]) + |ls[k]|
  {
    assert ls[..k + 1][..k] == ls[..k];
  }

  lemma RepairsStep(rds: seq<RankingDump>, k: nat)
    requires k < |rds|
    ensures Repairs(rds[..k + 1]) == Repairs(rds[..k]) + Repaired(rds[k].columns)
  {
    assert rds[..k + 1][..k] == rds[..k];
  }

  lemma KeptStep(cs: seq<Column>, j: nat)
    requires j < |cs|
    ensures Kept(cs[..j + 1]) == Kept(cs[..j]) + (if cs[j].desc.columnType != "" then [cs[j]] else [])
  {
    assert cs[..j + 1][..j] == cs[..j];
  }

  lemma RenumberedStep(cs: seq<Column>, j: nat, start: int)
    requires j < |cs|
    ensures Renumbered(cs[..j + 1], start) == Renumbered(cs[..j], start) + [cs[j].(id := ColumnId(start + j))]
  {
    var a, b := Renumbered(cs[..j + 1], start), Renumbered(cs[..j], start) + [cs[j].(id := ColumnId(start + j))];
    assert |a| == |b|;
    forall i | 0 <= i < |a| ensures a[i] == b[i] {
      if i < j {
        assert cs[..j + 1][i] == cs[..j][i];
      }
    }
  }

  /** Renumbering forgets the old ids: only the descriptions matter. */
  lemma RenumberedByDescs(cs: seq<Column>, start: int)
    ensures Renumbered(cs, start) == Renumbered(Blank(Descs(cs)), start)
  {
  }

  /** The columns after the rank-column repair have the layout's descriptions. */
  lemma RepairedLayout(cs: seq<Column>, children: seq<Column>, u: int)
    requires children == if HasRank(Kept(cs)) then Kept(cs) else [Column(ColumnId(u), RankDesc)] + Kept(cs)
    ensures Descs(children) == Layout(cs)
  {
    if !HasRank(Kept(cs)) {
      assert Descs(children) == [RankDesc] + Descs(Kept(cs));
    }
  }

  /** Every restored ranking has a rank column. */
  lemma RestoredHasRank(cs: seq<Column>, start: int)
    ensures HasRank(Renumbered(Blank(Layout(cs)), start))
  {
    var r := Renumbered(Blank(Layout(cs)), start);
    RenumberedDistinct(Blank(Layout(cs)), start);
    if HasRank(Kept(cs)) {
      var j :| 0 <= j < |Kept(cs)| && Kept(cs)[j].desc.columnType == RankType;
      assert r[j].desc == Kept(cs)[j].desc;
    } else {
      assert r[0].desc == RankDesc;
    }
  }

  /** Restoring the dump of a ranking that already has a rank column and only typed columns gives its columns back. */
  lemma {:induction false} KeptAllTyped(cs: seq<Column>)
    requires forall j :: 0 <= j < |cs| ==> cs[j].desc.columnType != ""
    ensures Kept(cs) == cs
  {
    if cs != [] {
      KeptAllTyped(cs[..|cs| - 1]);
      assert cs[..|cs| - 1] + [cs[|cs| - 1]] == cs;
    }
  }

  lemma LayoutOfDump(cs: seq<Column>)
    requires forall j :: 0 <= j < |cs| ==> cs[j].desc.columnType != ""
    requires HasRank(cs)
    ensures Layout(cs) == Descs(cs)
  {
    KeptAllTyped(cs);
  }

  /**
   * Renumbering the restored rankings one after the other with one counter gives ids that
   * differ across all rankings, not only within one.
   */
  lemma RestoredIdsDistinct(ls: seq<seq<Desc>>, css: seq<seq<Column>>, start: int)
    requires |css| == |ls|
    requires forall k :: 0 <= k < |ls| ==> css[k] == Renumbered(Blank(ls[k]), start + TotalLen(ls[..k]))
    ensures forall k1, j1, k2, j2 ::
      0 <= k1 < |css| && 0 <= j1 < |css[k1]| && 0 <= k2 < |css| && 0 <= j2 < |css[k2]| && (k1, j1) != (k2, j2)
      ==> css[k1][j1].id != css[k2][j2].id
  {
    forall k1, j1, k2, j2 |
      0 <= k1 < |css| && 0 <= j1 < |css[k1]| && 0 <= k2 < |css| && 0 <= j2 < |css[k2]| && (k1, j1) != (k2, j2)
      ensures css[k1][j1].id != css[k2][j2].id
    {
      var n1 := start + TotalLen(ls[..k1]) + j1;
      var n2 := start + TotalLen(ls[..k2]) + j2;
      assert css[k1][j1].id == ColumnId(n1);
      assert css[k2][j2].id == ColumnId(n2);
      RestoredNumbersDiffer(ls, k1, j1, k2, j2);
      if css[k1][j1].id == css[k2][j2].id {
        ColumnIdInjective(n1, n2);
      }
    }
  }

  /** Two different positions of the restored rankings draw different counter values. */
  lemma RestoredNumbersDiffer<X>(ls: seq<seq<X>>, k1: nat, j1: nat, k2: nat, j2: nat)
    requires k1 < |ls| && j1 < |ls[k1]| && k2 < |ls| && j2 < |ls[k2]| && (k1, j1) != (k2, j2)
    ensures TotalLen(ls[..k1]) + j1 != TotalLen(ls[..k2]) + j2
  {
    if k1 < k2 {
      TotalLenMonotone(ls, k1, k2);
    } else if k2 < k1 {
      TotalLenMonotone(ls, k2, k1);
    }
  }

  /** An earlier ranking's ids all lie below a later one's first id. */
  lemma {:induction false} TotalLenMonotone<X>(ls: seq<seq<X>>, a: nat, b: nat)
    requires a < b <= |ls|
    ensures TotalLen(ls[..a]) + |ls[a]| <= TotalLen(ls[..b])
    decreases b - a
  {
    TotalLenStep(ls, a);
    if a + 1 < b {
      TotalLenMonotone(ls, a + 1, b);
      TotalLenStep(ls, a + 1);
    }
  }

  /** The counter value the final renumbering of `restore` starts from: the dumped one, moved on by the rank-column repairs. */
  function RenumberBase(dump: ProviderDump): int
  {
    dump.uid.GetOr(0) + Repairs(dump.rankings.GetOr([]))
  }

  /** The events `insertRanking` fires for rankings appended one after the other to an empty list. */
  function AddedEvents(rs: seq<Ranking>): (es: seq<Event>)
    ensures |es| == |rs|
  {
    seq(|rs|, k requires 0 <= k < |rs| => RankingsChanged(AddedKinds, Some(rs[k]), Some(k)))
  }

  /** `set.values()` (and `forEach`): every element once, in some order. */
  method Values(s: set<int>) returns (values: seq<int>)
    ensures multiset(values) == multiset(s)
  {
    var rest := s;
    values := [];
    while rest != {}
      invariant multiset(values) + multiset(rest) == multiset(s)
      decreases |rest|
    {
      if forall y :: y !in rest {
        assert false;
      }
      var x :| x in rest;
      values := values + [x];
      rest := rest - {x};
    }
  }

  /** The d3 set the source keeps: the `String` form of each selected row index. */
  function SelectionKeys(sel: set<int>): set<string>
  {
    set i | i in sel :: Strings.IntToString(i)
  }

  /** `String(index)` is among the keys exactly when `index` is selected. */
  lemma KeysMembership(sel: set<int>, index: int)
    ensures Strings.IntToString(index) in SelectionKeys(sel) <==> index in sel
  {
    if Strings.IntToString(index) in SelectionKeys(sel) {
      var i :| i in sel && Strings.IntToString(i) == Strings.IntToString(index);
      Strings.IntToStringInjective(i, index);
    }
  }

  // ---------------------------------------------------------------------------
  // The provider

  /**
   * The descriptions `deriveDefault` turns into columns, in order: those that are not of a
   * support type (`isSupport`) and whose type tag is registered, since `create` gives no
   * column for the others.
   */
  function Eligible(ds: seq<Desc>, isSupport: Desc -> bool, types: set<string>): (r: seq<Desc>)
    ensures |r| <= |ds|
  {
    if ds == [] then []
    else
      var init, d := Eligible(ds[..|ds| - 1], isSupport, types), ds[|ds| - 1];
      if !isSupport(d) && d.columnType in types then init + [d] else init
  }

  lemma {:induction false} EligibleIff(ds: seq<Desc>, isSupport: Desc -> bool, types: set<string>, d: Desc)
    ensures d in Eligible(ds, isSupport, types) <==> d in ds && !isSupport(d) && d.columnType in types
  {
    if ds != [] {
      var init := ds[..|ds| - 1];
      EligibleIff(init, isSupport, types, d);
      assert ds == init + [ds[|ds| - 1]];
    }
  }

  lemma EligibleStep(ds: seq<Desc>, k: nat, isSupport: Desc -> bool, types: set<string>)
    requires k < |ds|
    ensures Eligible(ds[..k + 1], isSupport, types) ==
      if !isSupport(ds[k]) && ds[k].columnType in types then Eligible(ds[..k], isSupport, types) + [ds[k]]
      else Eligible(ds[..k], isSupport, types)
  {
    assert ds[..k + 1][..k] == ds[..k];
  }

  /** Renumbering one more description extends the renumbered columns by one column. */
  lemma BlankAppend(ds: seq<Desc>, d: Desc, start: int)
    ensures Renumbered(Blank(ds + [d]), start) == Renumbered(Blank(ds), start) + [Column(ColumnId(start + |ds|), d)]
  {
    var a, b := Renumbered(Blank(ds + [d]), start), Renumbered(Blank(ds), start) + [Column(ColumnId(start + |ds|), d)];
    assert |a| == |b|;
    forall i | 0 <= i < |a| ensures a[i] == b[i] {
      if i < |ds| {
        assert (ds + [d])[i] == ds[i];
      }
    }
  }

  /** No ranking occurs twice. */
  ghost predicate Distinct(rs: seq<Ranking>)
  {
    forall a, b :: 0 <= a < b < |rs| ==> rs[a] != rs[b]
  }

  lemma DistinctStep(rs: seq<Ranking>, r: Ranking)
    requires Distinct(rs) && r !in rs
    ensures Distinct(rs + [r])
  {
  }

  /** Each of the rankings holds the kept columns of the dump at its position. */
  ghost predicate HoldKept(rs: seq<Ranking>, rds: seq<RankingDump>)
    reads rs
  {
    |rs| <= |rds| && forall k :: 0 <= k < |rs| ==> rs[k].children == Kept(rds[k].columns)
  }

  lemma HoldKeptStep(rs: seq<Ranking>, r: Ranking, rds: seq<RankingDump>)
    requires HoldKept(rs, rds) && |rs| < |rds| && r.children == Kept(rds[|rs|].columns)
    ensures HoldKept(rs + [r], rds)
  {
  }

  /**
   * The rankings hold the descriptions `ls` in order, with ids drawn from one counter that
   * starts at `start` and runs on from ranking to ranking.
   */
  ghost predicate NumberedFrom(rs: seq<Ranking>, ls: seq<seq<Desc>>, start: int)
    reads rs
  {
    && |rs| == |ls|
    && forall k :: 0 <= k < |rs| ==> rs[k].children == NumberedAt(ls, start, k)
  }

  /** The columns of ranking `k` after the renumbering: ids run on from the rankings before it. */
  function NumberedAt(ls: seq<seq<Desc>>, start: int, k: nat): (cs: seq<Column>)
    requires k < |ls|
    ensures Descs(cs) == ls[k]
  {
    Renumbered(Blank(ls[k]), start + TotalLen(ls[..k]))
  }

  /** Renumbering columns with descriptions `ds` gives the same columns as renumbering blank ones. */
  lemma RenumberedOfDescs(cs: seq<Column>, ds: seq<Desc>, start: int)
    requires Descs(cs) == ds
    ensures Renumbered(cs, start) == Renumbered(Blank(ds), start)
  {
    RenumberedByDescs(cs, start);
  }

  class Provider {
    var rankings: seq<Ranking>
    var selection: set<int>
    var uid: int
    var events: seq<Event>
    var reorders: seq<Ranking>
    /** The registered column types (`columnTypes`); the built-in ones include `rank`. */
    const columnTypes: set<string>

    ghost predicate Valid()
      reads this
    {
      RankType in columnTypes
    }

    /** A provider with no rankings, no selection and the given extra column types. */
    constructor(extraTypes: set<string>)
      ensures Valid()
      ensures rankings == [] && selection == {} && uid == 0 && events == [] && reorders == []
      ensures columnTypes == {RankType} + extraTypes
    {
      rankings, selection, uid, events, reorders := [], {}, 0, [], [];
      columnTypes := {RankType} + extraTypes;
    }

    // -------------------------------------------------------------------------
    // Selection

    /**
     * `isSelected(index)`: the source asks its set of strings for `String(index)`; that
     * answer is the membership of `index` in the modelled selection.
     */
    function IsSelected(index: int): (b: bool)
      reads this
      ensures b <==> Strings.IntToString(index) in SelectionKeys(selection)
    {
      KeysMembership(selection, index);
      index in selection
    }

    /** `select(index)`: adds the index and fires once, unless it is already selected. */
    method Select(index: int)
      modifies this
      ensures old(index in selection) ==> selection == old(selection) && events == old(events)
      ensures old(index !in selection) ==>
        selection == old(selection) + {index} && events == old(events) + [SelectionChanged(selection, false)]
      ensures rankings == old(rankings) && uid == old(uid) && reorders == old(reorders)
    {
      if index in selection {
        return;
      }
      selection := selection + {index};
      events := events + [SelectionChanged(selection, false)];
    }

    /** `deselect(index)`: removes the index and fires once, unless it is not selected. */
    method Deselect(index: int)
      modifies this
      ensures old(index !in selection) ==> selection == old(selection) && events == old(events)
      ensures old(index in selection) ==>
        selection == old(selection) - {index} && events == old(events) + [SelectionChanged(selection, false)]
      ensures rankings == old(rankings) && uid == old(uid) && reorders == old(reorders)
    {
      if index !in selection {
        return;
      }
      selection := selection - {index};
      events := events + [SelectionChanged(selection, false)];
    }

    /** `selectAll(indices, jump)`: adds every index, firing once, unless all are selected. */
    method SelectAll(indices: seq<int>, jump: bool)
      modifies this
      ensures old(Elements(indices) <= selection) ==> selection == old(selection) && events == old(events)
      ensures old(!(Elements(indices) <= selection)) ==>
        selection == old(selection) + Elements(indices) && events == old(events) + [SelectionChanged(selection, jump)]
      ensures rankings == old(rankings) && uid == old(uid) && reorders == old(reorders)
    {
      if forall k :: 0 <= k < |indices| ==> indices[k] in selection {
        return;
      }
      for k := 0 to |indices|
        invariant selection == old(selection) + Elements(indices[..k])
        invariant rankings == old(rankings) && uid == old(uid) && reorders == old(reorders) && events == old(events)
      {
        assert Elements(indices[..k + 1]) == Elements(indices[..k]) + {indices[k]} by {
          assert indices[..k + 1] == indices[..k] + [indices[k]];
        }
        selection := selection + {indices[k]};
      }
      assert indices[..|indices|] == indices;
      events := events + [SelectionChanged(selection, jump)];
    }

    /**
     * `setSelection(indices, jump)`: nothing happens when the selection has as many
     * elements as `indices` and holds all of them; otherwise the selection is emptied and
     * `selectAll` runs, which fires nothing when `indices` is empty.
     */
    method SetSelection(indices: seq<int>, jump: bool)
      modifies this
      ensures var unchangedCase := |old(selection)| == |indices| && Elements(indices) <= old(selection);
        && (unchangedCase ==> selection == old(selection) && events == old(events))
        && (!unchangedCase && indices == [] ==> selection == {} && events == old(events))
        && (!unchangedCase && indices != [] ==>
              selection == Elements(indices) && events == old(events) + [SelectionChanged(selection, jump)])
      ensures rankings == old(rankings) && uid == old(uid) && reorders == old(reorders)
    {
      if |selection| == |indices| && forall k :: 0 <= k < |indices| ==> indices[k] in selection {
        return;
      }
      selection := {};
      SelectAll(indices, jump);
      assert indices != [] ==> indices[0] in Elements(indices);
    }

    /**
     * `setSelection` with the no-change test it evidently means: nothing happens when the
     * selection already is the set of `indices`. Afterwards the selection is exactly that set.
     */
    method SetSelectionIntended(indices: seq<int>, jump: bool)
      modifies this
      ensures selection == Elements(indices)
      ensures old(selection) == Elements(indices) ==> events == old(events)
      ensures old(selection) != Elements(indices) && indices == [] ==> events == old(events)
      ensures old(selection) != Elements(indices) && indices != [] ==>
        events == old(events) + [SelectionChanged(selection, jump)]
      ensures rankings == old(rankings) && uid == old(uid) && reorders == old(reorders)
    {
      if selection == Elements(indices) {
        return;
      }
      selection := {};
      SelectAll(indices, jump);
      assert indices != [] ==> indices[0] in Elements(indices);
    }

    /**
     * `toggleSelection(index, additional)`: a selected index is deselected (alone, or by
     * clearing everything), an unselected one is selected (in addition, or alone). Returns
     * whether the index is selected afterwards.
     */
    method ToggleSelection(index: int, additional: bool) returns (selected: bool)
      modifies this
      ensures selected == old(index !in selection) && selected == (index in selection)
      ensures selection ==
        if old(index in selection) then (if additional then old(selection) - {index} else {})
        else (if additional then old(selection) + {index} else {index})
      ensures events == old(events) + [SelectionChanged(selection, false)]
      ensures rankings == old(rankings) && uid == old(uid) && reorders == old(reorders)
    {
      if index in selection {
        if additional {
          Deselect(index);
        } else {
          ClearSelection();
        }
        return false;
      } else {
        if additional {
          Select(index);
        } else {
          assert Elements([index]) == {index};
          SetSelectionIntended([index], false);
        }
        return true;
      }
    }

    /** `clearSelection()`: empties the selection and fires once, unless it is already empty. */
    method ClearSelection()
      modifies this
      ensures old(selection) == {} ==> events == old(events)
      ensures old(selection) != {} ==> events == old(events) + [SelectionChanged({}, false)]
      ensures selection == {}
      ensures rankings == old(rankings) && uid == old(uid) && reorders == old(reorders)
    {
      if selection == {} {
        return;
      }
      selection := {};
      events := events + [SelectionChanged({}, false)];
    }

    /**
     * `getSelection()`: the selected indices, each once, in the order of the default
     * `sort()`, which compares the decimal strings.
     */
    method GetSelection() returns (indices: seq<int>)
      ensures multiset(indices) == multiset(selection)
      ensures Sorting.SortedBy(indices, Strings.CompareAsStrings)
    {
      var collected := Values(selection);
      indices := Sorting.SortBy(collected, Strings.CompareAsStrings);
      Strings.CompareAsStringsIsTotalPreorder();
      Sorting.SortBySorted(collected, Strings.CompareAsStrings);
    }

    // -------------------------------------------------------------------------
    // The ranking list

    /**
     * `insertRanking(r, index)`: splices `r` in at `index`, fires `addRanking` (with the
     * dirty events) for `r` and `index`, and triggers a reorder of `r`.
     */
    method InsertRanking(r: Ranking, index: int)
      modifies this
      ensures rankings == Splice(old(rankings), index, r)
      ensures events == old(events) + [RankingsChanged(AddedKinds, Some(r), Some(index))]
      ensures reorders == old(reorders) + [r]
      ensures selection == old(selection) && uid == old(uid)
    {
      rankings := Splice(rankings, index, r);
      events := events + [RankingsChanged(AddedKinds, Some(r), Some(index))];
      reorders := reorders + [r];
    }

    /**
     * `removeRanking(r)`: false, with nothing changed, for a ranking the list does not hold;
     * otherwise removes its first occurrence, fires `removeRanking` for it, and is true.
     */
    method RemoveRanking(r: Ranking) returns (removed: bool)
      modifies this
      ensures removed <==> r in old(rankings)
      ensures !removed ==> rankings == old(rankings) && events == old(events)
      ensures removed ==> rankings == RemoveAt(old(rankings), IndexOf(old(rankings), r))
      ensures removed ==> events == old(events) + [RankingsChanged(RemovedKinds, Some(r), Some(IndexOf(old(rankings), r)))]
      ensures selection == old(selection) && uid == old(uid) && reorders == old(reorders)
    {
      var before := rankings;
      var i := IndexOf(before, r);
      assert i == IndexOf(old(rankings), r);
      removed := 0 <= i;
      if removed {
        rankings := RemoveAt(before, i);
        events := events + [RankingsChanged(RemovedKinds, Some(r), Some(i))];
      }
    }

    /** `clearRankings()`: empties the list and fires `removeRanking` with no ranking. */
    method ClearRankings()
      modifies this
      ensures rankings == []
      ensures events == old(events) + [RankingsChanged(RemovedKinds, None, None)]
      ensures selection == old(selection) && uid == old(uid) && reorders == old(reorders)
    {
      rankings := [];
      events := events + [RankingsChanged(RemovedKinds, None, None)];
    }

    // -------------------------------------------------------------------------
    // Columns

    /** `nextId()`: the id for the current counter value, and the counter moves on by one. */
    method NextId() returns (id: string)
      modifies this
      ensures id == ColumnId(old(uid)) && uid == old(uid) + 1
      ensures rankings == old(rankings) && selection == old(selection) && events == old(events) && reorders == old(reorders)
    {
      id := ColumnId(uid);
      uid := uid + 1;
    }

    /**
     * `create(desc)`: a column of a registered type gets the next id; an unknown type tag
     * gives no column and uses no id.
     */
    method Create(desc: Desc) returns (c: Option<Column>)
      modifies this
      ensures desc.columnType in columnTypes ==> c == Some(Column(ColumnId(old(uid)), desc)) && uid == old(uid) + 1
      ensures desc.columnType !in columnTypes ==> c == None && uid == old(uid)
      ensures rankings == old(rankings) && selection == old(selection) && events == old(events) && reorders == old(reorders)
    {
      if desc.columnType !in columnTypes {
        return None;
      }
      var id := NextId();
      c := Some(Column(id, desc));
    }

    /** `push(ranking, desc)`: creates the column and appends it to the ranking. */
    method Push(r: Ranking, desc: Desc) returns (c: Option<Column>)
      modifies this, r
      ensures desc.columnType in columnTypes ==>
        && c == Some(Column(ColumnId(old(uid)), desc)) && uid == old(uid) + 1
        && r.children == old(r.children) + [c.value]
      ensures desc.columnType !in columnTypes ==> c == None && uid == old(uid) && r.children == old(r.children)
      ensures rankings == old(rankings) && selection == old(selection) && events == old(events) && reorders == old(reorders)
    {
      c := Create(desc);
      if c.Some? {
        r.Push(c.value);
      }
    }

    /** `insert(ranking, index, desc)`: creates the column and splices it in at `index`. */
    method Insert(r: Ranking, index: int, desc: Desc) returns (c: Option<Column>)
      modifies this, r
      ensures desc.columnType in columnTypes ==>
        && c == Some(Column(ColumnId(old(uid)), desc)) && uid == old(uid) + 1
        && r.children == Splice(old(r.children), index, c.value)
      ensures desc.columnType !in columnTypes ==> c == None && uid == old(uid) && r.children == old(r.children)
      ensures rankings == old(rankings) && selection == old(selection) && events == old(events) && reorders == old(reorders)
    {
      c := Create(desc);
      if c.Some? {
        r.Insert(c.value, index);
      }
    }

    /**
     * `find(filter)`: the first column, in ranking order and then column order, that the
     * filter accepts, or none. `find(id)` is the filter `c.id == id`.
     */
    method Find(filter: Column -> bool) returns (c: Option<Column>)
      ensures c.Some? ==> filter(c.value)
      ensures c.Some? ==>
        exists i, j ::
          && 0 <= i < |rankings| && 0 <= j < |rankings[i].children| && rankings[i].children[j] == c.value
          && (forall i' :: 0 <= i' < i ==> NoMatch(rankings[i'].children, filter))
          && NoMatch(rankings[i].children[..j], filter)
      ensures c.None? <==> forall i :: 0 <= i < |rankings| ==> NoMatch(rankings[i].children, filter)
    {
      for i := 0 to |rankings|
        invariant forall i' :: 0 <= i' < i ==> NoMatch(rankings[i'].children, filter)
      {
        var j := FirstMatch(rankings[i].children, filter);
        if j >= 0 {
          return Some(rankings[i].children[j]);
        }
      }
      return None;
    }

    /**
     * `dump()`: the counter, the selected indices (each once) and each ranking's dump, in
     * list order.
     */
    method Dump() returns (d: ProviderDump)
      ensures d.uid == Some(uid)
      ensures d.selection.Some? && multiset(d.selection.value) == multiset(selection)
      ensures d.rankings.Some? && |d.rankings.value| == |rankings|
      ensures forall k :: 0 <= k < |rankings| ==> d.rankings.value[k] == RankingDump(rankings[k].children)
    {
      var sel := Values(selection);
      var rs: seq<RankingDump> := [];
      for k := 0 to |rankings|
        invariant |rs| == k
        invariant forall k' :: 0 <= k' < k ==> rs[k'] == RankingDump(rankings[k'].children)
      {
        rs := rs + [RankingDump(rankings[k].children)];
      }
      d := ProviderDump(Some(uid), Some(sel), Some(rs));
    }

    // -------------------------------------------------------------------------
    // Restoring

    /**
     * `ranking.restore(dump, createHelper)` on a fresh ranking: each column dump with a
     * type tag becomes a column with the dumped id and description; one without a tag is
     * dropped; an unregistered tag makes `new type(...)` throw, reported as false.
     */
    method RestoreColumns(r: Ranking, cs: seq<Column>) returns (ok: bool)
      modifies r
      ensures ok <==> Known(cs, columnTypes)
      ensures ok ==> r.children == old(r.children) + Kept(cs)
    {
      for j := 0 to |cs|
        invariant r.children == old(r.children) + Kept(cs[..j])
        invariant Known(cs[..j], columnTypes)
      {
        KeptStep(cs, j);
        KnownStep(cs, j, columnTypes);
        if cs[j].desc.columnType != "" {
          if cs[j].desc.columnType !in columnTypes {
            UnknownColumn(cs, j, columnTypes);
            return false;
          }
          r.Push(cs[j]);
        }
      }
      assert cs[..|cs|] == cs;
      ok := true;
    }

    /** The rank-column repair: a ranking without a rank column gets a new one at position 0. */
    method RepairRank(r: Ranking)
      requires Valid()
      modifies this, r
      ensures HasRank(old(r.children)) ==> r.children == old(r.children) && uid == old(uid)
      ensures !HasRank(old(r.children)) ==>
        r.children == [Column(ColumnId(old(uid)), RankDesc)] + old(r.children) && uid == old(uid) + 1
      ensures rankings == old(rankings) && selection == old(selection) && events == old(events) && reorders == old(reorders)
    {
      if !HasRank(r.children) {
        var c := Create(RankDesc);
        r.Insert(c.value, 0);
        assert Splice(old(r.children), 0, c.value) == [c.value] + old(r.children);
      }
    }

    /** A fresh ranking restored from its dump, repaired, not yet in the list and not renumbered. */
    method RestoreOne(rd: RankingDump) returns (ok: bool, r: Ranking)
      requires Valid()
      modifies this
      ensures fresh(r)
      ensures ok <==> Known(rd.columns, columnTypes)
      ensures ok ==> r.HasLayout(Layout(rd.columns)) && uid == old(uid) + Repaired(rd.columns)
      ensures !ok ==> uid == old(uid)
      ensures rankings == old(rankings) && selection == old(selection) && events == old(events) && reorders == old(reorders)
    {
      r := new Ranking();
      ok := RestoreColumns(r, rd.columns);
      if ok {
        assert r.children == Kept(rd.columns);
        ghost var u := uid;
        RepairRank(r);
        RepairedLayout(rd.columns, r.children, u);
      }
    }

    /** `children.forEach((c) => c.assignNewId(idGenerator))`: one fresh id per column, in order. */
    method AssignNewIds(r: Ranking)
      modifies this, r
      ensures r.children == Renumbered(old(r.children), old(uid))
      ensures uid == old(uid) + |old(r.children)|
      ensures rankings == old(rankings) && selection == old(selection) && events == old(events) && reorders == old(reorders)
    {
      var cs := r.children;
      var renamed: seq<Column> := [];
      for j := 0 to |cs|
        invariant uid == old(uid) + j
        invariant renamed == Renumbered(cs[..j], old(uid))
        invariant rankings == old(rankings) && selection == old(selection) && events == old(events) && reorders == old(reorders)
      {
        RenumberedStep(cs, j, old(uid));
        var id := NextId();
        renamed := renamed + [cs[j].(id := id)];
      }
      assert cs[..|cs|] == cs;
      r.children := renamed;
    }

    /**
     * The final loop of `restore`: every column of every ranking gets a fresh id, ranking by
     * ranking. `ls` are the descriptions the rankings hold.
     */
    method RenumberAll(ghost ls: seq<seq<Desc>>)
      requires forall a, b :: 0 <= a < b < |rankings| ==> rankings[a] != rankings[b]
      requires |ls| == |rankings| && forall k :: 0 <= k < |rankings| ==> Descs(rankings[k].children) == ls[k]
      modifies this, rankings
      ensures rankings == old(rankings) && selection == old(selection) && events == old(events) && reorders == old(reorders)
      ensures NumberedFrom(rankings, ls, old(uid))
      ensures uid == old(uid) + TotalLen(ls)
    {
      var rs := rankings;
      ghost var olds := seq(|rs|, k requires 0 <= k < |rs| reads rs => rs[k].children);
      ghost var u0 := uid;
      for k := 0 to |rs|
        invariant rankings == rs && selection == old(selection) && events == old(events) && reorders == old(reorders)
        invariant uid == u0 + TotalLen(ls[..k])
        invariant forall k' :: 0 <= k' < k ==> rs[k'].children == NumberedAt(ls, u0, k')
        invariant forall k' :: k <= k' < |rs| ==> rs[k'].children == olds[k']
      {
        var r := rs[k];
        RenumberedOfDescs(olds[k], ls[k], uid);
        TotalLenStep(ls, k);
        AssignNewIds(r);
        assert r.children == NumberedAt(ls, u0, k);
      }
      assert ls[..|ls|] == ls;
    }

    /** `cloneRanking()` followed by `ranking.restore(dump, createHelper)`. */
    method RestoreFresh(rd: RankingDump) returns (ok: bool, r: Ranking)
      ensures fresh(r)
      ensures ok <==> Known(rd.columns, columnTypes)
      ensures ok ==> r.children == Kept(rd.columns)
    {
      r := new Ranking();
      ok := RestoreColumns(r, rd.columns);
    }

    /**
     * The ranking loop of `restore`, restoring part: each dumped ranking in turn becomes a
     * fresh ranking holding its kept columns; on an unregistered column type it stops, and
     * `rs` holds the rankings restored before it.
     */
    method RestoreColumnsAll(rds: seq<RankingDump>) returns (ok: bool, rs: seq<Ranking>)
      ensures ok <==> AllKnown(rds, columnTypes)
      ensures ok ==> |rs| == |rds|
      ensures !ok ==> |rs| < |rds| && AllKnown(rds[..|rs|], columnTypes) && !Known(rds[|rs|].columns, columnTypes)
      ensures forall k :: 0 <= k < |rs| ==> fresh(rs[k])
      ensures forall a, b :: 0 <= a < b < |rs| ==> rs[a] != rs[b]
      ensures |rs| <= |rds| && forall k :: 0 <= k < |rs| ==> rs[k].children == Kept(rds[k].columns)
    {
      rs := [];
      for k := 0 to |rds|
        invariant |rs| == k
        invariant AllKnown(rds[..k], columnTypes)
        invariant forall k' :: 0 <= k' < k ==> fresh(rs[k'])
        invariant Distinct(rs)
        invariant HoldKept(rs, rds)
      {
        var good, r := RestoreFresh(rds[k]);
        AllKnownStep(rds, k, columnTypes);
        if !good {
          AllKnownPrefix(rds, k + 1, columnTypes);
          return false, rs;
        }
        HoldKeptStep(rs, r, rds);
        DistinctStep(rs, r);
        rs := rs + [r];
      }
      assert rds[..|rds|] == rds;
      ok := true;
    }

    /**
     * The ranking loop of `restore`, repair part: each restored ranking, in turn, gets a
     * rank column at position 0 when it has none.
     */
    method RepairAll(rs: seq<Ranking>, rds: seq<RankingDump>, ghost ls: seq<seq<Desc>>)
      requires Valid() && ls == Layouts(rds)
      requires forall a, b :: 0 <= a < b < |rs| ==> rs[a] != rs[b]
      requires |rs| <= |rds| && forall k :: 0 <= k < |rs| ==> rs[k].children == Kept(rds[k].columns)
      modifies this, rs
      ensures forall k :: 0 <= k < |rs| ==> rs[k].HasLayout(ls[k])
      ensures uid == old(uid) + Repairs(rds[..|rs|])
      ensures rankings == old(rankings) && selection == old(selection) && events == old(events) && reorders == old(reorders)
    {
      for k := 0 to |rs|
        invariant forall k' :: 0 <= k' < k ==> Descs(rs[k'].children) == ls[k']
        invariant forall k' :: k <= k' < |rs| ==> rs[k'].children == Kept(rds[k'].columns)
        invariant uid == old(uid) + Repairs(rds[..k])
        invariant rankings == old(rankings) && selection == old(selection) && events == old(events) && reorders == old(reorders)
      {
        RepairsStep(rds, k);
        label before:
        RepairAt(rs[k], rds[k].columns);
        forall k' | 0 <= k' < |rs| && k' != k ensures rs[k'].children == old@before(rs[k'].children) {
          if k' < k { assert rs[k'] != rs[k]; } else { assert rs[k] != rs[k']; }
        }
      }
    }

    /** One step of the repair loop: `r` gets a rank column at position 0 when it has none. */
    method RepairAt(r: Ranking, cs: seq<Column>)
      requires Valid() && r.children == Kept(cs)
      modifies this, r
      ensures Descs(r.children) == Layout(cs)
      ensures uid == old(uid) + Repaired(cs)
      ensures rankings == old(rankings) && selection == old(selection) && events == old(events) && reorders == old(reorders)
    {
      ghost var u := uid;
      RepairRank(r);
      RepairedLayout(cs, r.children, u);
    }

    /** The ranking loop of `restore`, inserting part: `insertRanking(r)` at the end, in turn. */
    method InsertAll(rs: seq<Ranking>)
      requires rankings == []
      modifies this
      ensures rankings == rs
      ensures events == old(events) + AddedEvents(rs) && reorders == old(reorders) + rs
      ensures selection == old(selection) && uid == old(uid)
    {
      for k := 0 to |rs|
        invariant rankings == rs[..k]
        invariant events == old(events) + AddedEvents(rs[..k]) && reorders == old(reorders) + rs[..k]
        invariant selection == old(selection) && uid == old(uid)
      {
        AddedEventsStep(rs[..k], rs[k]);
        assert rs[..k + 1] == rs[..k] + [rs[k]];
        InsertRanking(rs[k], |rankings|);
      }
      assert rs[..|rs|] == rs;
    }

    /** `dump.selection.forEach((s) => selection.add(String(s)))`: adds, fires nothing. */
    method AddSelection(indices: seq<int>)
      modifies this
      ensures selection == old(selection) + Elements(indices)
      ensures rankings == old(rankings) && uid == old(uid) && events == old(events) && reorders == old(reorders)
    {
      for k := 0 to |indices|
        invariant selection == old(selection) + Elements(indices[..k])
        invariant rankings == old(rankings) && uid == old(uid) && events == old(events) && reorders == old(reorders)
      {
        assert Elements(indices[..k + 1]) == Elements(indices[..k]) + {indices[k]} by {
          assert indices[..k + 1] == indices[..k] + [indices[k]];
        }
        selection := selection + {indices[k]};
      }
      assert indices[..|indices|] == indices;
    }

    /**
     * `restore(dump)`: empties the ranking list, takes the counter from the dump (0 when it
     * has none), adds the dumped selection to the current one, and restores each dumped
     * ranking (repaired, inserted at the end); then every column of every ranking gets a
     * fresh id. A column of an unregistered type aborts it (false), leaving the rankings
     * restored so far in the list without fresh ids.
     */
    method Restore(dump: ProviderDump) returns (ok: bool)
      requires Valid()
      modifies this
      ensures selection == old(selection) + Elements(dump.selection.GetOr([]))
      ensures ok <==> AllKnown(dump.rankings.GetOr([]), columnTypes)
      ensures forall k :: 0 <= k < |rankings| ==> fresh(rankings[k])
      ensures forall a, b :: 0 <= a < b < |rankings| ==> rankings[a] != rankings[b]
      ensures events == old(events) + [RankingsChanged(RemovedKinds, None, None)] + AddedEvents(rankings)
      ensures reorders == old(reorders) + rankings
      ensures ok ==> |rankings| == |dump.rankings.GetOr([])|
      ensures ok ==> NumberedFrom(rankings, Layouts(dump.rankings.GetOr([])), RenumberBase(dump))
      ensures ok ==> uid == RenumberBase(dump) + TotalLen(Layouts(dump.rankings.GetOr([])))
      ensures !ok ==> |rankings| < |dump.rankings.GetOr([])|
    {
      ClearRankings();
      uid := dump.uid.GetOr(0);
      AddSelection(dump.selection.GetOr([]));
      ok := RestoreRankings(dump.rankings.GetOr([]));
    }

    /**
     * The ranking loop of `restore` on an empty ranking list, with the final renumbering:
     * on success the ids are numbered on from the current counter in ranking order.
     */
    method RestoreRankings(rds: seq<RankingDump>) returns (ok: bool)
      requires Valid() && rankings == []
      modifies this
      ensures ok <==> AllKnown(rds, columnTypes)
      ensures forall k :: 0 <= k < |rankings| ==> fresh(rankings[k])
      ensures forall a, b :: 0 <= a < b < |rankings| ==> rankings[a] != rankings[b]
      ensures events == old(events) + AddedEvents(rankings)
      ensures reorders == old(reorders) + rankings
      ensures selection == old(selection)
      ensures ok ==> |rankings| == |rds|
      ensures ok ==> NumberedFrom(rankings, Layouts(rds), old(uid) + Repairs(rds))
      ensures ok ==> uid == old(uid) + Repairs(rds) + TotalLen(Layouts(rds))
      ensures !ok ==> |rankings| < |rds|
    {
      var rs;
      ok, rs := RestoreRepaired(rds);
      InsertAll(rs);
      if ok {
        ghost var u := uid;
        RenumberAll(Layouts(rds));
        assert uid == u + TotalLen(Layouts(rds));
      }
    }

    /**
     * The restoring and repair parts of the ranking loop of `restore`: fresh rankings,
     * none inserted yet, each holding the layout of its dump.
     */
    method RestoreRepaired(rds: seq<RankingDump>) returns (ok: bool, rs: seq<Ranking>)
      requires Valid()
      modifies this
      ensures ok <==> AllKnown(rds, columnTypes)
      ensures ok ==> |rs| == |rds| && uid == old(uid) + Repairs(rds)
      ensures !ok ==> |rs| < |rds|
      ensures forall k :: 0 <= k < |rs| ==> fresh(rs[k])
      ensures forall a, b :: 0 <= a < b < |rs| ==> rs[a] != rs[b]
      ensures forall k :: 0 <= k < |rs| ==> Descs(rs[k].children) == Layouts(rds)[k]
      ensures rankings == old(rankings) && selection == old(selection) && events == old(events) && reorders == old(reorders)
    {
      ghost var ls := Layouts(rds);
      ok, rs := RestoreColumnsAll(rds);
      RepairAll(rs, rds, ls);
      if ok {
        assert rds[..|rds|] == rds;
      }
      forall k | 0 <= k < |rs| ensures Descs(rs[k].children) == ls[k] {
        assert rs[k].HasLayout(ls[k]);
      }
    }

    /**
     * `restoreRanking(dump)`: a fresh ranking restored from the dump, with the rank-column
     * repair and fresh ids, not added to the list.
     */
    method RestoreRanking(rd: RankingDump) returns (ok: bool, r: Ranking)
      requires Valid()
      modifies this
      ensures fresh(r)
      ensures ok <==> Known(rd.columns, columnTypes)
      ensures ok ==> r.children == Renumbered(Blank(Layout(rd.columns)), old(uid) + Repaired(rd.columns))
      ensures ok ==> uid == old(uid) + Repaired(rd.columns) + |Layout(rd.columns)|
      ensures rankings == old(rankings) && selection == old(selection) && events == old(events) && reorders == old(reorders)
    {
      ok, r := RestoreOne(rd);
      if ok {
        RenumberedByDescs(r.children, uid);
        AssignNewIds(r);
      }
    }

    /**
     * `deriveDefault()`: with no ranking yet, appends a fresh ranking (`pushRanking`) and
     * pushes a column for every non-support description of `columns` (`getColumns()`);
     * with a ranking already there, nothing changes.
     */
    method DeriveDefault(columns: seq<Desc>, isSupport: Desc -> bool)
      modifies this
      ensures old(rankings) != [] ==>
        && rankings == old(rankings) && uid == old(uid) && events == old(events) && reorders == old(reorders)
      ensures old(rankings) == [] ==>
        && |rankings| == 1 && fresh(rankings[0])
        && rankings[0].children == Renumbered(Blank(Eligible(columns, isSupport, columnTypes)), old(uid))
        && uid == old(uid) + |Eligible(columns, isSupport, columnTypes)|
        && events == old(events) + [RankingsChanged(AddedKinds, Some(rankings[0]), Some(0))]
        && reorders == old(reorders) + [rankings[0]]
      ensures selection == old(selection)
    {
      if |rankings| > 0 {
        return;
      }
      var r := new Ranking();
      InsertRanking(r, |rankings|);
      assert rankings == [r];
      for k := 0 to |columns|
        invariant rankings == [r] && selection == old(selection)
        invariant events == old(events) + [RankingsChanged(AddedKinds, Some(r), Some(0))]
        invariant reorders == old(reorders) + [r]
        invariant r.children == Renumbered(Blank(Eligible(columns[..k], isSupport, columnTypes)), old(uid))
        invariant uid == old(uid) + |Eligible(columns[..k], isSupport, columnTypes)|
      {
        EligibleStep(columns, k, isSupport, columnTypes);
        BlankAppend(Eligible(columns[..k], isSupport, columnTypes), columns[k], old(uid));
        if !isSupport(columns[k]) {
          var _ := Push(r, columns[k]);
        }
      }
      assert columns[..|columns|] == columns;
    }

    /** `getRankings()`: a copy of the list. */
    function GetRankings(): seq<Ranking>
      reads this
    {
      rankings
    }
  }

  // ---------------------------------------------------------------------------
  // Worked selections

  /**
   * `setSelection` as written compares sizes rather than sets: with rows 1 and 2 selected,
   * `setSelection([1, 1])` sees two indices, both selected, and keeps row 2 selected.
   */
  method SetSelectionKeepsStaleRow() returns (after: set<int>)
    ensures after == {1, 2}
  {
    var p := new Provider({});
    p.Select(1);
    p.Select(2);
    assert p.selection == {1, 2} && |p.selection| == 2;
    assert Elements([1, 1]) == {1};
    p.SetSelection([1, 1], false);
    after := p.selection;
  }

  /** The intended version leaves only row 1 selected for the same calls. */
  method SetSelectionIntendedDropsRow() returns (after: set<int>)
    ensures after == {1}
  {
    var p := new Provider({});
    p.Select(1);
    p.Select(2);
    assert Elements([1, 1]) == {1};
    p.SetSelectionIntended([1, 1], false);
    after := p.selection;
  }

  /** `getSelection()` with rows 9 and 10 selected lists 10 first: "10" sorts before "9". */
  method GetSelectionOrder() returns (indices: seq<int>)
    ensures indices == [10, 9]
  {
    var p := new Provider({});
    p.Select(9);
    p.Select(10);
    indices := p.GetSelection();
    assert multiset(indices) == multiset{9, 10};
    assert |indices| == 2;
    assert indices[0] in multiset(indices) && indices[1] in multiset(indices);
    Strings.TenBeforeNine();
    Strings.CompareStringsAntisymmetric(Strings.IntToString(10), Strings.IntToString(9));
    if indices[0] == 9 {
      assert false;
    }
  }
}
