/**
 * Removing empty columns (PerseusPluginLib/Rearrange/RemoveEmptyColumns.cs):
 * a column without a single value is dropped from its family (expression,
 * numerical, multi-numerical, categorical or text columns), together with
 * its name and description.
 */
module EmptyColumns {
  import opened Wrappers
  import opened Seqs

  /** A double as far as the columns are concerned: a finite number, NaN or an infinity. */
  datatype Number = Finite(value: real) | NaN | PositiveInfinity | NegativeInfinity

  /** A column of one family; `None` stands for a null entry. */
  datatype Column =
    | Numbers(values: seq<Number>)
    | NumberLists(numberLists: seq<Option<seq<Number>>>)
    | Categories(categoryLists: seq<Option<seq<string>>>)
    | Texts(strings: seq<Option<string>>)

  /** A text entry with a value: not null and not empty. */
  predicate TextHasValue(s: Option<string>)
  {
    s.Some? && s.value != []
  }

  /** A list entry with a value: not null and not of length zero (whatever it holds). */
  predicate ListHasValue<T>(s: Option<seq<T>>)
  {
    s.Some? && |s.value| > 0
  }

  /** The column holds at least one value; otherwise the source calls it invalid. */
  predicate HasValue(c: Column)
  {
    match c
    case Numbers(values) => exists i :: 0 <= i < |values| && values[i].Finite?
    case NumberLists(lists) => exists i :: 0 <= i < |lists| && ListHasValue(lists[i])
    case Categories(lists) => exists i :: 0 <= i < |lists| && ListHasValue(lists[i])
    case Texts(strings) => exists i :: 0 <= i < |strings| && TextHasValue(strings[i])
  }

  /** `IsInvalidStringColumn`: every entry is null or empty. */
  method IsInvalidStringColumn(column: seq<Option<string>>) returns (r: bool)
    ensures r <==> forall i :: 0 <= i < |column| ==> !TextHasValue(column[i])
  {
    for i := 0 to |column|
      invariant forall j :: 0 <= j < i ==> !TextHasValue(column[j])
    {
      var s := column[i];
      if !(s.None? || s.value == []) {
        return false;
      }
    }
    return true;
  }

  /** `IsInvalidCatColumn` and `IsInvalidMultiNumColumn`: every entry is null or of length zero. */
  method IsInvalidListColumn<T>(column: seq<Option<seq<T>>>) returns (r: bool)
    ensures r <==> forall i :: 0 <= i < |column| ==> !ListHasValue(column[i])
  {
    for i := 0 to |column|
      invariant forall j :: 0 <= j < i ==> !ListHasValue(column[j])
    {
      var s := column[i];
      if s.Some? && |s.value| > 0 {
        return false;
      }
    }
    return true;
  }

  /** `IsInvalidNumColumn` and `IsInvalidExColumn`: every entry is NaN or infinite. */
  method IsInvalidNumberColumn(column: seq<Number>) returns (r: bool)
    ensures r <==> forall i :: 0 <= i < |column| ==> !column[i].Finite?
  {
    for i := 0 to |column|
      invariant forall j :: 0 <= j < i ==> !column[j].Finite?
    {
      if column[i].Finite? {
        return false;
      }
    }
    return true;
  }

  /** The test of the `GetValid*` loops, for a column of any family. */
  method IsInvalid(c: Column) returns (r: bool)
    ensures r <==> !HasValue(c)
  {
    match c
    case Numbers(values) => r := IsInvalidNumberColumn(values);
    case NumberLists(lists) => r := IsInvalidListColumn(lists);
    case Categories(lists) => r := IsInvalidListColumn(lists);
    case Texts(strings) => r := IsInvalidStringColumn(strings);
  }

  /** A column without rows has no value, so it counts as invalid. */
  lemma NoRowsNoValue(c: Column)
    requires c == Numbers([]) || c == NumberLists([]) || c == Categories([]) || c == Texts([])
    ensures !HasValue(c)
  {
  }

  /** Only lengths are looked at: a list of NaNs is a value of a multi-numerical column. */
  lemma NaNListIsValue()
    ensures HasValue(NumberLists([Some([NaN])]))
  {
    assert ListHasValue(NumberLists([Some([NaN])]).numberLists[0]);
  }

  /** The positions below `n` of the columns with a value, in order. */
  function ValidIndices(columns: seq<Column>, n: nat): (r: seq<nat>)
    requires n <= |columns|
    ensures StrictlyIncreasing(r) && InBounds(r, n) && |r| <= n
    ensures forall i :: i in r <==> 0 <= i < n && HasValue(columns[i])
  {
    if n == 0 then []
    else
      var r := ValidIndices(columns, n - 1);
      if HasValue(columns[n - 1]) then
        IncreasingSnoc(r, n - 1);
        r + [n - 1]
      else r
  }

  /** `GetValidTextCols`, `GetValidCatCols`, `GetValidMultiNumCols`, `GetValidNumCols` and `GetValidExCols`. */
  method GetValidColumns(columns: seq<Column>) returns (valids: seq<nat>)
    ensures valids == ValidIndices(columns, |columns|)
  {
    valids := [];
    for i := 0 to |columns|
      invariant valids == ValidIndices(columns, i)
    {
      var invalid := IsInvalid(columns[i]);
      if !invalid {
        valids := valids + [i];
      }
    }
  }

  /** In a strictly increasing list, entries are at least as far apart as their positions. */
  lemma {:induction false} IncreasingGaps(s: seq<nat>, i: nat, j: nat)
    requires StrictlyIncreasing(s) && i <= j < |s|
    ensures s[j] - s[i] >= j - i
    decreases j - i
  {
    if i < j {
      IncreasingGaps(s, i, j - 1);
    }
  }

  /**
   * There are as many valid indices as columns exactly when every column
   * has a value, and then the indices are all positions in order.
   */
  lemma ValidIndicesFull(columns: seq<Column>)
    ensures |ValidIndices(columns, |columns|)| == |columns| <==> forall i :: 0 <= i < |columns| ==> HasValue(columns[i])
    ensures |ValidIndices(columns, |columns|)| == |columns| ==> ValidIndices(columns, |columns|) == Range(|columns|)
  {
    var n := |columns|;
    var v := ValidIndices(columns, n);
    if forall i :: 0 <= i < n ==> HasValue(columns[i]) {
      var all := Range(n);
      assert Distinct(all);
      DistinctIncludedShorter(all, v);
    }
    if |v| == n {
      forall k | 0 <= k < n
        ensures v[k] == k
      {
        IncreasingGaps(v, 0, k);
        IncreasingGaps(v, k, n - 1);
      }
      forall i | 0 <= i < n
        ensures HasValue(columns[i])
      {
        assert v[i] == i;
        assert i in v;
      }
    }
  }

  /** A family of columns: the columns with their names and descriptions. */
  datatype Family = Family(columns: seq<Column>, names: seq<string>, descriptions: seq<string>)

  predicate WellFormed(f: Family)
  {
    |f.names| == |f.columns| && |f.descriptions| == |f.columns|
  }

  /** `SubList` on columns, names and descriptions with the same index list. */
  function Prune(f: Family, idx: seq<nat>): (r: Family)
    requires WellFormed(f) && InBounds(idx, |f.columns|)
    ensures WellFormed(r) && |r.columns| == |idx|
  {
    Family(Select(f.columns, idx), Select(f.names, idx), Select(f.descriptions, idx))
  }

  /** One branch of `ProcessData`: the family is rewritten only when some column is invalid. */
  function Cleaned(f: Family): (r: Family)
    requires WellFormed(f)
    ensures WellFormed(r)
  {
    var valids := ValidIndices(f.columns, |f.columns|);
    if |valids| < |f.columns| then Prune(f, valids) else f
  }

  /** One branch of `ProcessData`, given the family's valid columns: prune only when some column is invalid. */
  method PruneIfInvalid(f: Family, inds: seq<nat>) returns (r: Family)
    requires WellFormed(f) && inds == ValidIndices(f.columns, |f.columns|)
    ensures r == Cleaned(f)
  {
    r := f;
    if |inds| < |f.columns| {
      r := Prune(f, inds);
    }
  }

  /**
   * Whether or not the family is rewritten, the result holds exactly the
   * columns with a value, in order, each with its own name and description.
   */
  lemma CleanedKeepsValues(f: Family)
    requires WellFormed(f)
    ensures Cleaned(f) == Prune(f, ValidIndices(f.columns, |f.columns|))
    ensures forall k :: 0 <= k < |Cleaned(f).columns| ==> HasValue(Cleaned(f).columns[k])
    ensures |Cleaned(f).columns| == |f.columns| <==> forall i :: 0 <= i < |f.columns| ==> HasValue(f.columns[i])
  {
    var valids := ValidIndices(f.columns, |f.columns|);
    ValidIndicesFull(f.columns);
    if |valids| == |f.columns| {
      SelectRange(f.columns);
      SelectRange(f.names);
      SelectRange(f.descriptions);
    }
    forall k | 0 <= k < |valids|
      ensures HasValue(f.columns[valids[k]])
    {
      assert valids[k] in valids;
    }
  }

  /**
   * The text branch as the source writes it: the sliced text-column
   * descriptions are stored as the expression-column descriptions, and
   * the text-column descriptions are left as they were.
   */
  function TextBranchAsWritten(expression: Family, text: Family): (r: (Family, Family))
    requires WellFormed(text)
  {
    var valids := ValidIndices(text.columns, |text.columns|);
    if |valids| < |text.columns| then
      (expression.(descriptions := Select(text.descriptions, valids)),
       text.(columns := Select(text.columns, valids), names := Select(text.names, valids)))
    else (expression, text)
  }

  /**
   * With one expression column and one empty text column, the code as
   * written leaves a text description without a column and takes away the
   * expression column's description.
   */
  lemma TextBranchAsWrittenBreaksFamilies()
    ensures var expression := Family([Numbers([Finite(1.0)])], ["e"], ["e description"]);
            var text := Family([Texts([None])], ["t"], ["t description"]);
            var (expression', text') := TextBranchAsWritten(expression, text);
            WellFormed(expression) && WellFormed(text) && !WellFormed(expression') && !WellFormed(text')
  {
    var text := Family([Texts([None])], ["t"], ["t description"]);
    assert !HasValue(text.columns[0]);
    assert ValidIndices(text.columns, 1) == [];
  }

  /**
   * The text branch as intended slices the text descriptions like the
   * text columns and names, so the k-th kept description belongs to the
   * k-th kept text column, and the expression family is left alone. The
   * code as written agrees with it when every text column has a value,
   * and otherwise leaves the text family with more descriptions than
   * columns.
   */
  lemma TextBranchIntended(expression: Family, text: Family)
    requires WellFormed(expression) && WellFormed(text)
    ensures var valids := ValidIndices(text.columns, |text.columns|);
      forall k :: 0 <= k < |valids| ==>
        && Cleaned(text).columns[k] == text.columns[valids[k]]
        && Cleaned(text).names[k] == text.names[valids[k]]
        && Cleaned(text).descriptions[k] == text.descriptions[valids[k]]
    ensures TextBranchAsWritten(expression, text).1.columns == Cleaned(text).columns
    ensures TextBranchAsWritten(expression, text).1.names == Cleaned(text).names
    ensures (forall i :: 0 <= i < |text.columns| ==> HasValue(text.columns[i])) ==>
      TextBranchAsWritten(expression, text) == (expression, Cleaned(text))
    ensures !(forall i :: 0 <= i < |text.columns| ==> HasValue(text.columns[i])) ==>
      !WellFormed(TextBranchAsWritten(expression, text).1)
  {
    CleanedKeepsValues(text);
    ValidIndicesFull(text.columns);
  }

  /** The column families of a matrix that `ProcessData` rewrites. */
  class MatrixData {
    var expression: Family
    var numeric: Family
    var multiNumeric: Family
    var category: Family
    var text: Family

    predicate Valid()
      reads this
    {
      WellFormed(expression) && WellFormed(numeric) && WellFormed(multiNumeric) &&
      WellFormed(category) && WellFormed(text)
    }

    constructor (expression: Family, numeric: Family, multiNumeric: Family, category: Family, text: Family)
      requires WellFormed(expression) && WellFormed(numeric) && WellFormed(multiNumeric)
      requires WellFormed(category) && WellFormed(text)
      ensures Valid()
      ensures this.expression == expression && this.numeric == numeric && this.multiNumeric == multiNumeric
      ensures this.category == category && this.text == text
    {
      this.expression := expression;
      this.numeric := numeric;
      this.multiNumeric := multiNumeric;
      this.category := category;
      this.text := text;
    }

    /**
     * `ProcessData`, with the text descriptions sliced like the text
     * columns: every family keeps exactly its columns with a value.
     */
    method ProcessData()
      requires Valid()
      modifies this
      ensures Valid()
      ensures expression == Cleaned(old(expression)) && numeric == Cleaned(old(numeric))
      ensures multiNumeric == Cleaned(old(multiNumeric)) && category == Cleaned(old(category))
      ensures text == Cleaned(old(text))
    {
      var exColInds := GetValidColumns(expression.columns);
      var numColInds := GetValidColumns(numeric.columns);
      var multiNumColInds := GetValidColumns(multiNumeric.columns);
      var catColInds := GetValidColumns(category.columns);
      var textColInds := GetValidColumns(text.columns);
      expression := PruneIfInvalid(expression, exColInds);
      numeric := PruneIfInvalid(numeric, numColInds);
      multiNumeric := PruneIfInvalid(multiNumeric, multiNumColInds);
      category := PruneIfInvalid(category, catColInds);
      text := PruneIfInvalid(text, textColInds);
    }
  }
}
