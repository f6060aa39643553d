/** `SparseMatrix<T>`: a shape plus a map holding only the entries that
    were ever set. There is no default value: reading an index that was
    never set is an error. */
module Sparse {
  import opened Common

  class SparseMatrix {
    const rowNum: nat
    const colNum: nat
    var elements: map<MatIndex, int>

    /** Object invariant: every stored key lies inside the shape. */
    ghost predicate Valid()
      reads this
    {
      elements.Keys <= Indices(rowNum, colNum)
    }

    /** `new(row_num, col_num)`: the given shape and an empty map. */
    constructor (rowNum: nat, colNum: nat)
      ensures Valid()
      ensures this.rowNum == rowNum && this.colNum == colNum && elements == map[]
    {
      this.rowNum, this.colNum, elements := rowNum, colNum, map[];
    }

    /** `row()`: above every stored row index. */
    function Row(): (r: nat)
      reads this
      ensures Valid() ==> forall ix: MatIndex {:trigger ix in elements} :: ix in elements ==> ix.0 < r
    {
      rowNum
    }

    /** `col()`: above every stored column index. */
    function Col(): (c: nat)
      reads this
      ensures Valid() ==> forall ix: MatIndex {:trigger ix in elements} :: ix in elements ==> ix.1 < c
    {
      colNum
    }

    /** `get_v(row, col)`: defined only for a stored key (`get_v` panics
        with "not find key!" otherwise; there is no zero default); a key
        that can be read lies inside the shape, and the result is one of the
        stored values. */
    function GetV(row: nat, col: nat): (v: int)
      reads this
      requires (row, col) in elements
      ensures Valid() ==> row < rowNum && col < colNum
      ensures v in elements.Values
    {
      elements[(row, col)]
    }

    /** Whether `get_v(row, col)` succeeds: the key was set earlier. */
    predicate IsStored(row: nat, col: nat)
      reads this
    {
      (row, col) in elements
    }

    /** `set_v(row, col, v)`: inserts or overwrites `v` at an in-range
        index, including a zero `v`; an out-of-range index is ignored and
        the shape never changes. */
    method SetV(row: nat, col: nat, v: int)
      requires Valid()
      modifies this`elements
      ensures Valid()
      ensures elements == SetEntry(old(elements), rowNum, colNum, row, col, v)
      ensures row < rowNum && col < colNum ==> IsStored(row, col) && GetV(row, col) == v
      ensures !(row < rowNum && col < colNum) ==> (IsStored(row, col) <==> old(IsStored(row, col)))
    {
      if row < rowNum && col < colNum {
        elements := elements[(row, col) := v];
      }
    }
  }

  /** At most `row_num * col_num` entries can ever be stored. */
  lemma StoredBound(m: SparseMatrix)
    requires m.Valid()
    ensures |m.elements| <= m.rowNum * m.colNum
  {
    IndicesCard(m.rowNum, m.colNum);
    SubsetCard(m.elements.Keys, Indices(m.rowNum, m.colNum));
  }
}
