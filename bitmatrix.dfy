/**
 * `IndexedBitMatrix` (MqUtil/Data/IndexedBitMatrix.cs): a sparse boolean
 * matrix that keeps, per row, the ordered set of columns whose bit is set.
 * Rows are allocated on first `Set`; an unallocated row reads as all false.
 */
module BitMatrix {

  /** One row: not yet allocated (the array slot is null), or a set of columns. */
  datatype Row = Unallocated | Allocated(cols: set<int>)

  class IndexedBitMatrix {
    const RowCount: int
    const ColumnCount: int
    const data: array<Row>

    ghost predicate Valid()
      reads this
    {
      data.Length == RowCount
    }

    /** `Get(row, col)`: the row exists and holds the column. */
    function Get(row: int, col: int): bool
      reads this, data
      requires Valid() && 0 <= row < RowCount
    {
      data[row].Allocated? && col in data[row].cols
    }

    /** The relation the matrix stores: every cell whose bit is set. */
    ghost function Bits(): set<(int, int)>
      reads this, data
      requires Valid()
    {
      set r, c | 0 <= r < data.Length && data[r].Allocated? && c in data[r].cols :: (r, c)
    }

    lemma BitsMeansGet(row: int, col: int)
      requires Valid()
      ensures (row, col) in Bits() <==> 0 <= row < RowCount && Get(row, col)
    {
    }

    /** A new matrix has no row allocated, so every cell reads false. */
    constructor (nrows: nat, ncols: int)
      ensures Valid() && fresh(data)
      ensures RowCount == nrows && ColumnCount == ncols
      ensures forall r, c :: 0 <= r < nrows ==> !Get(r, c)
      ensures Bits() == {}
    {
      RowCount := nrows;
      ColumnCount := ncols;
      data := new Row[nrows](_ => Unallocated);
    }

    /**
     * `Set(row, col, val)`: allocates the row if needed, then adds or
     * removes the column. Only cell (row, col) can change; setting a cell
     * to the value it already has changes nothing observable.
     */
    method Set(row: int, col: int, val: bool)
      requires Valid() && 0 <= row < RowCount
      modifies data
      ensures Valid()
      ensures Get(row, col) == val
      ensures forall r, c :: 0 <= r < RowCount && (r, c) != (row, col) ==> Get(r, c) == old(Get(r, c))
      ensures Bits() == if val then old(Bits()) + {(row, col)} else old(Bits()) - {(row, col)}
      ensures old(Get(row, col)) == val ==> Bits() == old(Bits())
      ensures data[row].Allocated?
      ensures forall r :: 0 <= r < RowCount && r != row ==> data[r] == old(data[r])
    {
      if data[row] == Unallocated {
        data[row] := Allocated({});
      }
      if val {
        data[row] := Allocated(data[row].cols + {col});
      } else {
        data[row] := Allocated(data[row].cols - {col});
      }
    }
  }
}
