/**
 * `DateColumn` of `src/model/DateColumn.ts`: turning a row's raw value into a date,
 * labelling it, and comparing two rows by date with explicit rules for missing values.
 *
 * A date is its timestamp in milliseconds (`getTime()`), so a parsed value is an
 * `Option<int>`. The column's `parse` and `format` (d3 time formats built in the
 * constructor) are parameters, and so is `FIRST_IS_NAN`, a constant of `model/missing`.
 */
module DateColumn {
  import opened Wrappers
  import Sorting

  /**
   * What the column's accessor yields for a row: a value `isMissingValue` treats as
   * missing, a `Date` object, or anything else (represented by its `String` form).
   */
  datatype Raw = Missing | IsDate(time: int) | Other(text: string)

  /** `getValue`: null for missing, a date as is, otherwise the parse of the string form. */
  function GetValue(v: Raw, parse: string -> Option<int>): (r: Option<int>)
    ensures r.None? <==> v.Missing? || (v.Other? && parse(v.text).None?)
    ensures v.IsDate? ==> r == Some(v.time)
  {
    match v
    case Missing => None
    case IsDate(t) => Some(t)
    case Other(text) => parse(text)
  }

  /** `getLabel`: the formatted date, or the empty string when there is no date. */
  function GetLabel(v: Raw, parse: string -> Option<int>, format: int -> string): (r: string)
    ensures r != "" ==> GetValue(v, parse).Some? && r == format(GetValue(v, parse).value)
  {
    match GetValue(v, parse)
    case None => ""
    case Some(t) => format(t)
  }

  /** `compare` on two already-parsed values. */
  function CompareValues(av: Option<int>, bv: Option<int>, firstIsNaN: int): (r: int)
    ensures av == bv ==> r == 0
    ensures av.Some? && bv.Some? ==> (r < 0 <==> av.value < bv.value) && (r == 0 <==> av.value == bv.value)
  {
    if av == bv then 0
    else if av.None? then (if bv.Some? then firstIsNaN else 0)
    else if bv.None? then firstIsNaN * -1
    else av.value - bv.value
  }

  /** `compare(a, b)`: compares the values `getValue` gives for the two rows. */
  function Compare(a: Raw, b: Raw, parse: string -> Option<int>, firstIsNaN: int): (r: int)
    ensures GetValue(a, parse) == GetValue(b, parse) ==> r == 0
    ensures GetValue(a, parse).Some? && GetValue(b, parse).Some? ==>
      (r < 0 <==> GetValue(a, parse).value < GetValue(b, parse).value)
  {
    CompareValues(GetValue(a, parse), GetValue(b, parse), firstIsNaN)
  }

  // ---------------------------------------------------------------------------
  // Value and label

  /** A missing value has no date, a date is kept, anything else is parsed from its text. */
  lemma GetValueCases(v: Raw, parse: string -> Option<int>)
    ensures v.Missing? ==> GetValue(v, parse) == None
    ensures v.IsDate? ==> GetValue(v, parse) == Some(v.time)
    ensures v.Other? ==> GetValue(v, parse) == parse(v.text)
  {
  }

  /**
   * The label is empty whenever there is no date; when `format` never yields the empty
   * string, an empty label means exactly that there is no date.
   */
  lemma LabelEmptyIffNoDate(v: Raw, parse: string -> Option<int>, format: int -> string)
    ensures GetValue(v, parse).None? ==> GetLabel(v, parse, format) == ""
    ensures (forall t :: format(t) != "") ==>
      (GetLabel(v, parse, format) == "" <==> GetValue(v, parse).None?)
  {
  }

  /**
   * Round trip: when `parse` reads back what `format` writes for timestamp `t`, reading the
   * label of a date as a string value gives the same date.
   */
  lemma LabelReadsBack(t: int, parse: string -> Option<int>, format: int -> string)
    requires parse(format(t)) == Some(t)
    ensures GetValue(Other(GetLabel(IsDate(t), parse, format)), parse) == Some(t)
  {
  }

  // ---------------------------------------------------------------------------
  // The comparator

  /** Missing-value rules: both missing tie; a single missing value yields `±FIRST_IS_NAN`. */
  lemma CompareMissing(a: Raw, b: Raw, parse: string -> Option<int>, firstIsNaN: int)
    ensures GetValue(a, parse).None? && GetValue(b, parse).None? ==> Compare(a, b, parse, firstIsNaN) == 0
    ensures GetValue(a, parse).None? && GetValue(b, parse).Some? ==> Compare(a, b, parse, firstIsNaN) == firstIsNaN
    ensures GetValue(a, parse).Some? && GetValue(b, parse).None? ==> Compare(a, b, parse, firstIsNaN) == -firstIsNaN
  {
  }

  /** Two dates compare by the difference of their timestamps. */
  lemma CompareDates(a: Raw, b: Raw, parse: string -> Option<int>, firstIsNaN: int)
    requires GetValue(a, parse).Some? && GetValue(b, parse).Some?
    ensures Compare(a, b, parse, firstIsNaN) == GetValue(a, parse).value - GetValue(b, parse).value
  {
  }

  /** Swapping the rows negates the comparison, and every row ties with itself. */
  lemma CompareAntisymmetric(a: Raw, b: Raw, parse: string -> Option<int>, firstIsNaN: int)
    ensures Compare(b, a, parse, firstIsNaN) == -Compare(a, b, parse, firstIsNaN)
    ensures Compare(a, a, parse, firstIsNaN) == 0
  {
  }

  /**
   * On parsed values the comparator is a total preorder (so sorting by it is meaningful)
   * exactly when `FIRST_IS_NAN` is non-zero: with zero, a missing value ties with every
   * date, and 5 ~ missing ~ 1 breaks transitivity.
   */
  lemma PreorderIffFirstIsNaNNonZero(firstIsNaN: int)
    ensures Sorting.TotalPreorder((x, y) => CompareValues(x, y, firstIsNaN)) <==> firstIsNaN != 0
  {
    var cmp := (x, y) => CompareValues(x, y, firstIsNaN);
    if firstIsNaN == 0 {
      assert cmp(Some(5), None) <= 0 && cmp(None, Some(1)) <= 0 && cmp(Some(5), Some(1)) > 0;
    } else {
      forall x, y, z | cmp(x, y) <= 0 && cmp(y, z) <= 0 ensures cmp(x, z) <= 0 {
        if x.Some? && y.Some? && z.Some? {
          assert x.value <= y.value <= z.value;
        }
      }
    }
  }

  /**
   * The comparator is also consistent in the sense of `Array.prototype.sort` exactly when
   * `FIRST_IS_NAN` is non-zero, so that `sort` then has one result, the model's.
   */
  lemma ConsistentIffFirstIsNaNNonZero(firstIsNaN: int)
    ensures Sorting.Consistent((x, y) => CompareValues(x, y, firstIsNaN)) <==> firstIsNaN != 0
  {
    var cmp := (x, y) => CompareValues(x, y, firstIsNaN);
    PreorderIffFirstIsNaNNonZero(firstIsNaN);
    forall a, b ensures (cmp(a, b) < 0 <==> cmp(b, a) > 0) && (cmp(a, b) == 0 <==> cmp(b, a) == 0) {
      assert cmp(b, a) == -cmp(a, b);
    }
  }

  /**
   * With `FIRST_IS_NAN` negative, rows sorted by `compare` have every missing date in front
   * of every present one.
   */
  lemma MissingSortsFirst(s: seq<Raw>, parse: string -> Option<int>, firstIsNaN: int)
    requires firstIsNaN < 0
    requires Sorting.SortedBy(s, (a, b) => Compare(a, b, parse, firstIsNaN))
    ensures forall i, j ::
      (0 <= i < |s| && 0 <= j < |s| && GetValue(s[i], parse).Some? && GetValue(s[j], parse).None?) ==> j < i
  {
    forall i, j | 0 <= i < |s| && 0 <= j < |s| && GetValue(s[i], parse).Some? && GetValue(s[j], parse).None?
      ensures j < i
    {
      assert i < j ==> Compare(s[i], s[j], parse, firstIsNaN) <= 0;
    }
  }
}
