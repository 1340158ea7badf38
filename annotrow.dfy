/**
 * Managing categorical annotation rows
 * (PerseusPluginLib/AnnotRows/ManageCategoricalAnnotRow.cs): finding the
 * name column of an annotation file, splitting the other columns into
 * categorical and numerical ones, parsing category cells, and the row
 * edits (create, edit, rename, delete, create from sample names).
 */
module CategoricalAnnotRows {
  import opened Wrappers
  import opened Seqs
  import opened Text
  import opened StringOrder

  // ---------------------------------------------------------------------
  // The header of an annotation file

  /** `colName.ToLower().Equals("name")`. */
  predicate IsNameColumn(colName: string)
  {
    ToLower(colName) == "name"
  }

  predicate HasNameColumn(colNames: seq<string>)
  {
    exists j :: 0 <= j < |colNames| && IsNameColumn(colNames[j])
  }

  /** `GetNameIndex`: the first column called "name" in any case, or -1. */
  method GetNameIndex(colNames: seq<string>) returns (index: int)
    ensures -1 <= index < |colNames|
    ensures index >= 0 ==> IsNameColumn(colNames[index])
    ensures index >= 0 ==> forall j :: 0 <= j < index ==> !IsNameColumn(colNames[j])
    ensures index < 0 <==> !HasNameColumn(colNames)
  {
    for i := 0 to |colNames|
      invariant forall j :: 0 <= j < i ==> !IsNameColumn(colNames[j])
    {
      if ToLower(colNames[i]) == "name" {
        return i;
      }
    }
    return -1;
  }

  /** `colName.ToLower().EndsWith("[n]")`: the column holds numbers. */
  predicate IsNumericColumn(colName: string)
  {
    EndsWith(ToLower(colName), "[n]")
  }

  /**
   * The positions below `n`, other than `nameIndex`, of the numerical
   * columns (`numeric`) or of the categorical ones (`!numeric`), in order.
   */
  function ColumnIndices(colNames: seq<string>, nameIndex: int, numeric: bool, n: nat): (r: seq<nat>)
    requires n <= |colNames|
    ensures StrictlyIncreasing(r) && InBounds(r, n)
    ensures forall i :: i in r <==> 0 <= i < n && i != nameIndex && IsNumericColumn(colNames[i]) == numeric
  {
    if n == 0 then []
    else
      var r := ColumnIndices(colNames, nameIndex, numeric, n - 1);
      if n - 1 != nameIndex && IsNumericColumn(colNames[n - 1]) == numeric then
        IncreasingSnoc(r, n - 1);
        r + [n - 1]
      else r
  }

  /**
   * Every column except the name column is either categorical or
   * numerical, never both.
   */
  lemma {:induction false} ColumnIndicesPartition(colNames: seq<string>, nameIndex: int, n: nat)
    requires n <= |colNames|
    ensures |ColumnIndices(colNames, nameIndex, false, n)| + |ColumnIndices(colNames, nameIndex, true, n)|
            == n - (if 0 <= nameIndex < n then 1 else 0)
  {
    if n > 0 {
      ColumnIndicesPartition(colNames, nameIndex, n - 1);
    }
  }

  lemma SelectSnoc(s: seq<string>, idx: seq<nat>, i: nat)
    requires InBounds(idx, |s|) && i < |s|
    ensures InBounds(idx + [i], |s|)
    ensures Select(s, idx + [i]) == Select(s, idx) + [s[i]]
  {
  }

  /**
   * `SplitColNames`: the column names other than the name column, the
   * categorical ones and the numerical ones, each in file order.
   */
  method SplitColNames(colNames: seq<string>, nameIndex: int) returns (catColNames: seq<string>, numColNames: seq<string>)
    ensures catColNames == Select(colNames, ColumnIndices(colNames, nameIndex, false, |colNames|))
    ensures numColNames == Select(colNames, ColumnIndices(colNames, nameIndex, true, |colNames|))
  {
    catColNames, numColNames := [], [];
    for i := 0 to |colNames|
      invariant catColNames == Select(colNames, ColumnIndices(colNames, nameIndex, false, i))
      invariant numColNames == Select(colNames, ColumnIndices(colNames, nameIndex, true, i))
    {
      if i == nameIndex {
        continue;
      }
      var colName := colNames[i];
      if EndsWith(ToLower(colName), "[n]") {
        SelectSnoc(colNames, ColumnIndices(colNames, nameIndex, true, i), i);
        numColNames := numColNames + [colName];
      } else {
        SelectSnoc(colNames, ColumnIndices(colNames, nameIndex, false, i), i);
        catColNames := catColNames + [colName];
      }
    }
  }

  const NoNameColumnError: string := "Error: the file has to contain a column called 'Name'."
  const NoAnnotationColumnError: string := "Error: the file does not contain an annotation column."

  /**
   * The header checks of `ProcessDataReadFromFile`: a missing name column
   * is reported first, then a file with no column besides it; otherwise
   * there is no error and `nameIndex` is the name column.
   */
  method CheckHeader(colNames: seq<string>) returns (err: Option<string>, nameIndex: int)
    ensures !HasNameColumn(colNames) ==> err == Some(NoNameColumnError)
    ensures HasNameColumn(colNames) && |colNames| < 2 ==> err == Some(NoAnnotationColumnError)
    ensures HasNameColumn(colNames) && |colNames| >= 2 ==>
      err == None && 0 <= nameIndex < |colNames| && IsNameColumn(colNames[nameIndex])
  {
    nameIndex := GetNameIndex(colNames);
    if nameIndex < 0 {
      return Some(NoNameColumnError), nameIndex;
    }
    if |colNames| < 2 {
      return Some(NoAnnotationColumnError), nameIndex;
    }
    return None, nameIndex;
  }

  // ---------------------------------------------------------------------
  // Category cells read from a file

  /** The cell as a trimmed string; a null cell counts as empty. */
  function CellText(cell: Option<string>): string
  {
    Trim(if cell.Some? then cell.value else "")
  }

  /** Each string trimmed. */
  function TrimAll(pieces: seq<string>): (r: seq<string>)
    ensures |r| == |pieces| && forall k :: 0 <= k < |pieces| ==> r[k] == Trim(pieces[k])
  {
    if pieces == [] then [] else [Trim(pieces[0])] + TrimAll(pieces[1..])
  }

  /**
   * The categories of a cell: none for a blank cell; otherwise the
   * ';'-separated pieces, sorted as they are and then each trimmed.
   */
  function ParsedCell(cell: Option<string>): seq<string>
  {
    var group := CellText(cell);
    if group == [] then [] else TrimAll(SortStrings(Split(group, ';')))
  }

  /** The trimming loop of `AddCategoryRow`, in place on the array of pieces. */
  method TrimEach(a: array<string>)
    modifies a
    ensures a[..] == TrimAll(old(a[..]))
  {
    ghost var pieces := a[..];
    for k := 0 to a.Length
      invariant forall j :: 0 <= j < k ==> a[j] == Trim(pieces[j])
      invariant forall j :: k <= j < a.Length ==> a[j] == pieces[j]
    {
      a[k] := Trim(a[k]);
    }
  }

  /** The cell parsing of `AddCategoryRow`: sort the pieces, then trim each in place. */
  method ParseCategoryCell(cell: Option<string>) returns (w: seq<string>)
    ensures w == ParsedCell(cell)
  {
    var group := if cell.Some? then cell.value else "";
    group := Trim(group);
    if group == [] {
      return [];
    }
    var sorted := SortStrings(Split(group, ';'));
    var a := new string[|sorted|](k requires 0 <= k < |sorted| => sorted[k]);
    assert a[..] == sorted;
    TrimEach(a);
    w := a[..];
  }

  /** `x` is the trim of one of the pieces. */
  predicate TrimOfSome(x: string, pieces: seq<string>)
  {
    exists p :: p in pieces && Trim(p) == x
  }

  lemma TrimAllMembers(pieces: seq<string>)
    ensures forall x :: x in TrimAll(pieces) <==> TrimOfSome(x, pieces)
  {
    var r := TrimAll(pieces);
    forall x | TrimOfSome(x, pieces)
      ensures x in r
    {
      var p :| p in pieces && Trim(p) == x;
      var k :| 0 <= k < |pieces| && pieces[k] == p;
      assert r[k] == x;
    }
  }

  lemma TrimOfSameMembers(a: seq<string>, b: seq<string>)
    requires forall x :: x in a <==> x in b
    ensures forall x :: TrimOfSome(x, a) <==> TrimOfSome(x, b)
  {
  }

  /**
   * What a parsed cell holds: nothing for a null or blank cell; otherwise
   * one category per ';'-separated piece, each the trim of some piece,
   * and every piece's trim among them.
   */
  lemma ParsedCellMembers(cell: Option<string>)
    ensures CellText(cell) == [] ==> ParsedCell(cell) == []
    ensures CellText(cell) != [] ==> |ParsedCell(cell)| == |Split(CellText(cell), ';')|
    ensures forall x :: x in ParsedCell(cell) <==> CellText(cell) != [] && TrimOfSome(x, Split(CellText(cell), ';'))
  {
    var group := CellText(cell);
    if group != [] {
      var pieces := Split(group, ';');
      var sorted := SortStrings(pieces);
      SortStringsCorrect(pieces);
      TrimAllMembers(sorted);
      TrimOfSameMembers(sorted, pieces);
      assert ParsedCell(cell) == TrimAll(sorted);
    }
  }

  /** Every category read from a file is trimmed: it neither starts nor ends with white space. */
  lemma ParsedCellTrimmed(cell: Option<string>)
    ensures forall k :: 0 <= k < |ParsedCell(cell)| ==>
      ParsedCell(cell)[k] == [] || (!IsWhiteSpace(ParsedCell(cell)[k][0]) &&
                                    !IsWhiteSpace(ParsedCell(cell)[k][|ParsedCell(cell)[k]| - 1]))
  {
  }

  lemma SplitExample()
    ensures Split("a; z", ';') == ["a", " z"]
  {
    assert "a; z" == "a" + [';'] + " z";
    SplitAfterPiece("a", ';', " z");
    SplitWithoutSep(" z", ';');
  }

  lemma SortExample()
    ensures SortStrings(["a", " z"]) == [" z", "a"]
  {
    var pieces := ["a", " z"];
    assert OrderPrefix(pieces, 1) == [0];
    assert Less(pieces[1], pieces[0]);
    assert InsertIndex(pieces, 1, [0]) == [1, 0];
    assert Order(pieces) == [1, 0];
  }

  /**
   * Sorting comes before trimming, so the categories need not come out
   * sorted: in "a; z" the piece " z" sorts before "a" and then loses its
   * space.
   */
  lemma ParsedCellNotSorted()
    ensures ParsedCell(Some("a; z")) == ["z", "a"]
    ensures !Ascending(ParsedCell(Some("a; z")))
  {
    TrimExamples();
    assert CellText(Some("a; z")) == "a; z";
    SplitExample();
    SortExample();
    var r := TrimAll([" z", "a"]);
    assert r == ["z", "a"];
    assert ParsedCell(Some("a; z")) == r;
    assert Less(r[1], r[0]);
  }

  lemma TrimExamples()
    ensures Trim("a; z") == "a; z" && Trim("a") == "a" && Trim(" z") == "z"
  {
    TrimUnchanged("a; z");
    TrimUnchanged("a");
    TrimUnchanged("z");
    assert " z"[1..] == "z";
    assert Trim(" z") == Trim(" z"[1..]);
  }

  /** The category of matrix column `colName`: the parsed cell of its line, or none without one. */
  function ColumnCell(colName: string, lineOf: map<string, nat>, groupCol: seq<Option<string>>): seq<string>
    requires forall name :: name in lineOf ==> lineOf[name] < |groupCol|
  {
    if colName in lineOf then ParsedCell(groupCol[lineOf[colName]]) else []
  }

  /** One pass of the loop of `AddCategoryRow`: the category of one matrix column. */
  method ColumnCellOf(colName: string, lineOf: map<string, nat>, groupCol: seq<Option<string>>)
    returns (w: seq<string>)
    requires forall name :: name in lineOf ==> lineOf[name] < |groupCol|
    ensures w == ColumnCell(colName, lineOf, groupCol)
  {
    if colName !in lineOf {
      return [];
    }
    w := ParseCategoryCell(groupCol[lineOf[colName]]);
  }

  /** The loop of `AddCategoryRow` over the matrix columns. */
  method CategoryColumn(columnNames: seq<string>, lineOf: map<string, nat>, groupCol: seq<Option<string>>)
    returns (newCol: seq<seq<string>>)
    requires forall name :: name in lineOf ==> lineOf[name] < |groupCol|
    ensures |newCol| == |columnNames|
    ensures forall j :: 0 <= j < |columnNames| ==> newCol[j] == ColumnCell(columnNames[j], lineOf, groupCol)
  {
    newCol := [];
    for j := 0 to |columnNames|
      invariant |newCol| == j
      invariant forall k :: 0 <= k < j ==> newCol[k] == ColumnCell(columnNames[k], lineOf, groupCol)
    {
      var w := ColumnCellOf(columnNames[j], lineOf, groupCol);
      newCol := newCol + [w];
    }
  }

  /**
   * A matrix column missing from the file gets no category; one present
   * gets one category per piece of its cell, each trimmed.
   */
  lemma ColumnCellCases(colName: string, lineOf: map<string, nat>, groupCol: seq<Option<string>>)
    requires forall name :: name in lineOf ==> lineOf[name] < |groupCol|
    ensures colName !in lineOf ==> ColumnCell(colName, lineOf, groupCol) == []
    ensures colName in lineOf && CellText(groupCol[lineOf[colName]]) != [] ==>
      |ColumnCell(colName, lineOf, groupCol)| == |Split(CellText(groupCol[lineOf[colName]]), ';')|
  {
    if colName in lineOf {
      ParsedCellMembers(groupCol[lineOf[colName]]);
    }
  }

  /** The row name of a file column: a "[c]" suffix in any case is cut off and the rest trimmed. */
  function CategoryRowName(catColName: string): (r: string)
    ensures EndsWith(ToLower(catColName), "[c]") ==> |r| <= |catColName| - 3
    ensures r != catColName ==> EndsWith(ToLower(catColName), "[c]")
  {
    if EndsWith(ToLower(catColName), "[c]") then Trim(catColName[..|catColName| - 3]) else catColName
  }

  /** A trimmed name marked with "[c]" or "[C]" gets its name back. */
  lemma CategoryRowNameOfMarked(name: string, mark: string)
    requires mark == "[c]" || mark == "[C]"
    requires name == [] || (!IsWhiteSpace(name[0]) && !IsWhiteSpace(name[|name| - 1]))
    ensures CategoryRowName(name + mark) == name
  {
    var s := name + mark;
    assert ToLower(s)[|s| - 3..] == "[c]";
    assert s[..|s| - 3] == name;
    TrimUnchanged(name);
  }

  // ---------------------------------------------------------------------
  // Values typed in by the user

  /** The categories of a typed value (Create and Edit): none when empty, else the raw ';'-pieces. */
  function SplitValue(value: string): (r: seq<string>)
    ensures r == [] <==> value == []
  {
    if |value| > 0 then Split(value, ';') else []
  }

  /** Joining the categories of a value with ';' gives the value back. */
  lemma SplitValueJoin(value: string)
    ensures Join(SplitValue(value), ';') == value
  {
    if |value| > 0 {
      JoinSplit(value, ';');
    }
  }

  /**
   * The edit dialog shows each cell as its categories joined with ';'
   * (`GetEditParameters`); accepting it unchanged gives the cell back,
   * unless a category contains ';' or the cell is the single empty category.
   */
  lemma SplitValueOfJoined(cells: seq<string>)
    requires forall k :: 0 <= k < |cells| ==> ';' !in cells[k]
    requires cells != [""]
    ensures SplitValue(Join(cells, ';')) == cells
  {
    if |cells| == 1 {
      assert Join(cells, ';') == cells[0];
      SplitJoin(cells, ';');
    } else if |cells| > 1 {
      assert Join(cells, ';')[|cells[0]|] == ';';
      SplitJoin(cells, ';');
    }
  }

  /** The loop of `ProcessDataCreate` and `ProcessDataEdit`: the categories of every column's value. */
  method ValuesRow(columnNames: seq<string>, values: map<string, string>) returns (row: seq<seq<string>>)
    requires forall j :: 0 <= j < |columnNames| ==> columnNames[j] in values
    ensures |row| == |columnNames|
    ensures forall j :: 0 <= j < |columnNames| ==> row[j] == SplitValue(values[columnNames[j]])
  {
    row := [];
    for i := 0 to |columnNames|
      invariant |row| == i
      invariant forall j :: 0 <= j < i ==> row[j] == SplitValue(values[columnNames[j]])
    {
      var value := values[columnNames[i]];
      row := row + [if |value| > 0 then Split(value, ';') else []];
    }
  }

  /**
   * The loop of `ProcessDataCreateFromGoupNames`: each sample gets exactly
   * one group, the name derived from it or, when that is empty, the
   * sample name itself. The derivation by regular expression is given.
   */
  method GroupNamesRow(sampleNames: seq<string>, derived: seq<string>) returns (row: seq<seq<string>>)
    requires |derived| == |sampleNames|
    ensures |row| == |sampleNames|
    ensures forall i :: 0 <= i < |sampleNames| ==> |row[i]| == 1
    ensures forall i :: 0 <= i < |sampleNames| && derived[i] != [] ==> row[i][0] == derived[i]
    ensures forall i :: 0 <= i < |sampleNames| && derived[i] == [] ==> row[i][0] == sampleNames[i]
  {
    row := [];
    for i := 0 to |sampleNames|
      invariant |row| == i
      invariant forall j :: 0 <= j < i ==> |row[j]| == 1
      invariant forall j :: 0 <= j < i && derived[j] != [] ==> row[j][0] == derived[j]
      invariant forall j :: 0 <= j < i && derived[j] == [] ==> row[j][0] == sampleNames[j]
    {
      var groupName := derived[i];
      if groupName == [] {
        groupName := sampleNames[i];
      }
      row := row + [[groupName]];
    }
  }

  // ---------------------------------------------------------------------
  // The category rows of a matrix

  /** The categorical annotation rows of a matrix: per row a name, a description and one cell per column. */
  class CategoryRows {
    const columnNames: seq<string>
    var names: seq<string>
    var descriptions: seq<string>
    var rows: seq<seq<seq<string>>>

    predicate Valid()
      reads this
    {
      && |names| == |descriptions| == |rows|
      && forall r :: 0 <= r < |rows| ==> |rows[r]| == |columnNames|
    }

    constructor (columnNames: seq<string>)
      ensures Valid() && this.columnNames == columnNames
      ensures names == [] && descriptions == [] && rows == []
    {
      this.columnNames := columnNames;
      names, descriptions, rows := [], [], [];
    }

    /** `AddCategoryRow`: a new row after the existing ones. */
    method Add(name: string, description: string, row: seq<seq<string>>)
      requires Valid() && |row| == |columnNames|
      modifies this
      ensures Valid()
      ensures names == old(names) + [name] && descriptions == old(descriptions) + [description]
      ensures rows == old(rows) + [row]
    {
      names := names + [name];
      descriptions := descriptions + [description];
      rows := rows + [row];
    }

    /** `ProcessDataCreate`: a row from typed values, named and described by `name`. */
    method Create(name: string, values: map<string, string>)
      requires Valid() && forall j :: 0 <= j < |columnNames| ==> columnNames[j] in values
      modifies this
      ensures Valid()
      ensures names == old(names) + [name] && descriptions == old(descriptions) + [name]
      ensures |rows| == |old(rows)| + 1 && rows[..|rows| - 1] == old(rows)
      ensures forall j :: 0 <= j < |columnNames| ==> rows[|rows| - 1][j] == SplitValue(values[columnNames[j]])
    {
      var row := ValuesRow(columnNames, values);
      Add(name, name, row);
    }

    /** `ProcessDataEdit`: row `index` replaced by the typed values; names and descriptions stay. */
    method Edit(index: nat, values: map<string, string>)
      requires Valid() && index < |rows| && forall j :: 0 <= j < |columnNames| ==> columnNames[j] in values
      modifies this
      ensures Valid()
      ensures names == old(names) && descriptions == old(descriptions) && |rows| == |old(rows)|
      ensures forall r :: 0 <= r < |rows| && r != index ==> rows[r] == old(rows)[r]
      ensures forall j :: 0 <= j < |columnNames| ==> rows[index][j] == SplitValue(values[columnNames[j]])
    {
      var row := ValuesRow(columnNames, values);
      rows := rows[index := row];
    }

    /** `ProcessDataRename`: new name and description of row `index`; the cells stay. */
    method Rename(index: nat, newName: string, newDescription: string)
      requires Valid() && index < |rows|
      modifies this
      ensures Valid() && rows == old(rows)
      ensures names == old(names)[index := newName]
      ensures descriptions == old(descriptions)[index := newDescription]
    {
      names := names[index := newName];
      descriptions := descriptions[index := newDescription];
    }

    /** `ProcessDataDelete`: row `index` removed, the others keep their order. */
    method Delete(index: nat)
      requires Valid() && index < |rows|
      modifies this
      ensures Valid()
      ensures names == old(names)[..index] + old(names)[index + 1..]
      ensures descriptions == old(descriptions)[..index] + old(descriptions)[index + 1..]
      ensures rows == old(rows)[..index] + old(rows)[index + 1..]
    {
      names := names[..index] + names[index + 1..];
      descriptions := descriptions[..index] + descriptions[index + 1..];
      rows := rows[..index] + rows[index + 1..];
    }

    /** `ProcessDataCreateFromGoupNames`: one group per sample, with an empty description. */
    method CreateFromGroupNames(name: string, derived: seq<string>)
      requires Valid() && |derived| == |columnNames|
      modifies this
      ensures Valid()
      ensures names == old(names) + [name] && descriptions == old(descriptions) + [""]
      ensures |rows| == |old(rows)| + 1 && rows[..|rows| - 1] == old(rows)
      ensures forall i :: 0 <= i < |columnNames| ==>
        rows[|rows| - 1][i] == [if derived[i] != [] then derived[i] else columnNames[i]]
    {
      var row := GroupNamesRow(columnNames, derived);
      Add(name, "", row);
    }

    /**
     * `AddCategoryRow` for one categorical file column: the row is named
     * and described by the column name without its "[c]" mark.
     */
    method AddFromFile(catColName: string, lineOf: map<string, nat>, groupCol: seq<Option<string>>)
      requires Valid() && forall name :: name in lineOf ==> lineOf[name] < |groupCol|
      modifies this
      ensures Valid()
      ensures names == old(names) + [CategoryRowName(catColName)]
      ensures descriptions == old(descriptions) + [CategoryRowName(catColName)]
      ensures |rows| == |old(rows)| + 1 && rows[..|rows| - 1] == old(rows)
      ensures |rows[|rows| - 1]| == |columnNames|
      ensures forall j :: 0 <= j < |columnNames| ==>
        rows[|rows| - 1][j] == ColumnCell(columnNames[j], lineOf, groupCol)
    {
      var newCol := CategoryColumn(columnNames, lineOf, groupCol);
      var rowName := catColName;
      if EndsWith(ToLower(rowName), "[c]") {
        rowName := rowName[..|rowName| - 3];
        rowName := Trim(rowName);
      }
      Add(rowName, rowName, newCol);
    }
  }
}
