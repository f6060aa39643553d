/** `DenseMatrix<T>`: a shape plus a map from index to entry. Constructors
    and operators fill a fresh map with nested loops; `set_v` updates the
    receiver's map in place. Every operator is proved to produce the value
    that the matching `DenseSpec` function defines. */
module Dense {
  import opened Common
  import opened DenseSpec

  /** The builder macros `build_dense_matrix_v` and `build_dense_matrix_f`:
      row by row, insert `f(i, j)` at every in-range index `(i, j)`. (The
      constant builder is this one with a constant `f`.) */
  method BuildEntries(rows: nat, cols: nat, f: (nat, nat) --> int) returns (elements: map<MatIndex, int>)
    requires forall i: nat, j: nat :: i < rows && j < cols ==> f.requires(i, j)
    ensures Matrix(rows, cols, elements).Complete()
    ensures forall i: nat, j: nat :: i < rows && j < cols ==> elements[(i, j)] == f(i, j)
  {
    elements := map[];
    for i := 0 to rows
      invariant forall ix: MatIndex {:trigger ix in elements} :: ix in elements <==> ix.0 < i && ix.1 < cols
      invariant forall ix: MatIndex {:trigger elements[ix]} :: ix in elements ==> elements[ix] == f(ix.0, ix.1)
    {
      for j := 0 to cols
        invariant forall ix: MatIndex {:trigger ix in elements} :: ix in elements <==> (ix.0 < i && ix.1 < cols) || (ix.0 == i && ix.1 < j)
        invariant forall ix: MatIndex {:trigger elements[ix]} :: ix in elements ==> elements[ix] == f(ix.0, ix.1)
      {
        elements := elements[(i, j) := f(i, j)];
      }
    }
  }

  class DenseMatrix {
    const rowNum: nat
    const colNum: nat
    var elements: map<MatIndex, int>

    /** The matrix value this object currently holds. */
    function Value(): Matrix
      reads this
    {
      Matrix(rowNum, colNum, elements)
    }

    /** Object invariant: no key outside the shape is ever stored. */
    ghost predicate Valid()
      reads this
    {
      Value().Bounded()
    }

    /** `new(r, c)`: shape `(r, c)` and no stored entries. */
    constructor (rowNum: nat, colNum: nat)
      ensures Valid() && Value() == Matrix(rowNum, colNum, map[])
    {
      this.rowNum, this.colNum, elements := rowNum, colNum, map[];
    }

    /** The struct literal at the end of each builder. */
    constructor Assemble(m: Matrix)
      requires m.Bounded()
      ensures Valid() && Value() == m
    {
      rowNum, colNum, elements := m.rows, m.cols, m.entries;
    }

    /** `from(r, c, slice)`. */
    constructor From(rowNum: nat, colNum: nat, slice: seq<int>)
      requires rowNum * colNum <= |slice|
      ensures Valid() && Value() == FromRowMajor(rowNum, colNum, slice)
    {
      OffsetsInRange(rowNum, colNum);
      var e := BuildEntries(rowNum, colNum, (i: nat, j: nat) requires Offset(colNum, i, j) < |slice| => slice[Offset(colNum, i, j)]);
      Extensionality(Matrix(rowNum, colNum, e), FromRowMajor(rowNum, colNum, slice));
      this.rowNum, this.colNum, elements := rowNum, colNum, e;
    }

    /** `ones(num)`. */
    constructor Ones(num: nat)
      ensures Valid() && Value() == AllOnes(num)
    {
      var e := BuildEntries(num, num, (i: nat, j: nat) => 1);
      Extensionality(Matrix(num, num, e), AllOnes(num));
      rowNum, colNum, elements := num, num, e;
    }

    /** `zeros(num)`. */
    constructor Zeros(num: nat)
      ensures Valid() && Value() == AllZeros(num)
    {
      var e := BuildEntries(num, num, (i: nat, j: nat) => 0);
      Extensionality(Matrix(num, num, e), AllZeros(num));
      rowNum, colNum, elements := num, num, e;
    }

    /** `eyes(num)`. */
    constructor Eyes(num: nat)
      ensures Valid() && Value() == Identity(num)
    {
      var e := BuildEntries(num, num, (i: nat, j: nat) => if i == j then 1 else 0);
      Extensionality(Matrix(num, num, e), Identity(num));
      rowNum, colNum, elements := num, num, e;
    }

    /** `row()`: the row count of the value, above every stored row index. */
    function Row(): (r: nat)
      reads this
      ensures r == Value().rows
      ensures Valid() ==> forall ix: MatIndex {:trigger ix in elements} :: ix in elements ==> ix.0 < r
    {
      rowNum
    }

    /** `col()`: the column count of the value, above every stored column index. */
    function Col(): (c: nat)
      reads this
      ensures c == Value().cols
      ensures Valid() ==> forall ix: MatIndex {:trigger ix in elements} :: ix in elements ==> ix.1 < c
    {
      colNum
    }

    /** `get_v(row, col)`: defined only for a stored key (`get_v` panics
        with "not find key!" otherwise); a key that can be read lies inside
        the shape, and the result is one of the stored values. */
    function GetV(row: nat, col: nat): (v: int)
      reads this
      requires (row, col) in elements
      ensures Valid() ==> row < rowNum && col < colNum
      ensures v in elements.Values
    {
      elements[(row, col)]
    }

    /** `set_v(row, col, v)`: stores `v` at an in-range index, ignores an
        out-of-range one; the shape never changes. */
    method SetV(row: nat, col: nat, v: int)
      requires Valid()
      modifies this`elements
      ensures Valid()
      ensures elements == SetEntry(old(elements), rowNum, colNum, row, col, v)
      ensures row < rowNum && col < colNum ==> GetV(row, col) == v
    {
      if row < rowNum && col < colNum {
        elements := elements[(row, col) := v];
      }
    }

    /** `t()`. */
    method T() returns (r: DenseMatrix)
      requires Value().Filled()
      ensures fresh(r) && r.Valid() && r.Value() == Transpose(Value())
    {
      var e: map<MatIndex, int> := map[];
      for i := 0 to rowNum
        invariant forall ix: MatIndex {:trigger ix in e} :: ix in e <==> ix.1 < i && ix.0 < colNum
        invariant forall ix: MatIndex {:trigger e[ix]} :: ix in e ==> e[ix] == elements[(ix.1, ix.0)]
      {
        for j := 0 to colNum
          invariant forall ix: MatIndex {:trigger ix in e} :: ix in e <==> (ix.1 < i && ix.0 < colNum) || (ix.1 == i && ix.0 < j)
          invariant forall ix: MatIndex {:trigger e[ix]} :: ix in e ==> e[ix] == elements[(ix.1, ix.0)]
        {
          e := e[(j, i) := GetV(i, j)];
        }
      }
      Extensionality(Matrix(colNum, rowNum, e), Transpose(Value()));
      r := new DenseMatrix.Assemble(Matrix(colNum, rowNum, e));
    }

    /** One pass of the outer loop of `slice`: copy row `i` of the block,
        columns `colFrom..colTo`, to row `i - rowFrom` of `e`. */
    method SliceRow(e0: map<MatIndex, int>, ghost sub: Matrix, rowFrom: nat, rowTo: nat, colFrom: nat, colTo: nat, i: nat)
      returns (e: map<MatIndex, int>)
      requires SliceDefined(Value(), rowFrom, rowTo, colFrom, colTo) && rowFrom <= i <= rowTo
      requires sub.rows == rowTo - rowFrom + 1 && sub.cols == colTo - colFrom + 1 && sub.Complete()
      requires forall di: nat, dj: nat {:trigger sub.entries[(di, dj)]} :: di <= rowTo - rowFrom && dj <= colTo - colFrom ==>
                 (di + rowFrom, dj + colFrom) in elements && sub.entries[(di, dj)] == elements[(di + rowFrom, dj + colFrom)]
      requires forall ix: MatIndex {:trigger ix in e0} :: ix in e0 <==> ix.0 < i - rowFrom && ix.1 < colTo - colFrom + 1
      requires forall ix: MatIndex {:trigger e0[ix]} :: ix in e0 ==> e0[ix] == sub.entries[ix]
      ensures forall ix: MatIndex {:trigger ix in e} :: ix in e <==> ix.0 < i + 1 - rowFrom && ix.1 < colTo - colFrom + 1
      ensures forall ix: MatIndex {:trigger e[ix]} :: ix in e ==> e[ix] == sub.entries[ix]
    {
      e := e0;
      for j := colFrom to colTo + 1
        invariant forall ix: MatIndex {:trigger ix in e} :: ix in e <==> (ix.0 < i - rowFrom && ix.1 < colTo - colFrom + 1) || (ix.0 == i - rowFrom && ix.1 < j - colFrom)
        invariant forall ix: MatIndex {:trigger e[ix]} :: ix in e ==> e[ix] == sub.entries[ix]
      {
        e := e[(i - rowFrom, j - colFrom) := GetV(i, j)];
      }
    }

    /** `slice(row_from, row_to, col_from, col_to)`, both ranges inclusive. */
    method Slice(rowFrom: nat, rowTo: nat, colFrom: nat, colTo: nat) returns (r: DenseMatrix)
      requires SliceDefined(Value(), rowFrom, rowTo, colFrom, colTo)
      ensures fresh(r) && r.Valid() && r.Value() == SubMatrix(Value(), rowFrom, rowTo, colFrom, colTo)
    {
      var rows, cols := rowTo - rowFrom + 1, colTo - colFrom + 1;
      ghost var sub := SubMatrix(Value(), rowFrom, rowTo, colFrom, colTo);
      var e: map<MatIndex, int> := map[];
      for i := rowFrom to rowTo + 1
        invariant forall ix: MatIndex {:trigger ix in e} :: ix in e <==> ix.0 < i - rowFrom && ix.1 < cols
        invariant forall ix: MatIndex {:trigger e[ix]} :: ix in e ==> e[ix] == sub.entries[ix]
      {
        e := SliceRow(e, sub, rowFrom, rowTo, colFrom, colTo, i);
      }
      Extensionality(Matrix(rows, cols, e), sub);
      r := new DenseMatrix.Assemble(Matrix(rows, cols, e));
    }

    /** `safe_slice`: `None` exactly when `row_to` or `col_to` is past the
        shape; `row_from <= row_to` is not checked, so an inverted range
        inside the shape is still the caller's obligation. */
    method SafeSlice(rowFrom: nat, rowTo: nat, colFrom: nat, colTo: nat) returns (r: Option<DenseMatrix>)
      requires rowTo < rowNum && colTo < colNum ==> SliceDefined(Value(), rowFrom, rowTo, colFrom, colTo)
      ensures r.None? <==> rowTo >= rowNum || colTo >= colNum
      ensures r.Some? ==> fresh(r.value) && r.value.Valid()
      ensures r.Some? ==> r.value.Value() == SubMatrix(Value(), rowFrom, rowTo, colFrom, colTo)
    {
      if rowTo < rowNum && colTo < colNum {
        var s := Slice(rowFrom, rowTo, colFrom, colTo);
        r := Some(s);
      } else {
        r := None;
      }
    }

    /** `scalar_mul(k)`. */
    method ScalarMul(k: int) returns (r: DenseMatrix)
      requires Value().Filled()
      ensures fresh(r) && r.Valid() && r.Value() == Scale(Value(), k)
    {
      var a := elements;
      var e := BuildEntries(rowNum, colNum, (i: nat, j: nat) requires (i, j) in a => k * a[(i, j)]);
      Extensionality(Matrix(rowNum, colNum, e), Scale(Value(), k));
      r := new DenseMatrix.Assemble(Matrix(rowNum, colNum, e));
    }

    /** The closure `calc_elm` of `dot_mul`: the sum over the inner index. */
    method CalcElm(mat: DenseMatrix, i: nat, j: nat) returns (sum: int)
      requires forall k: nat :: k < colNum ==> (i, k) in elements && (k, j) in mat.elements
      ensures sum == DotSum(Value(), mat.Value(), i, j, colNum)
    {
      sum := 0;
      for k := 0 to colNum
        invariant sum == DotSum(Value(), mat.Value(), i, j, k)
      {
        sum := sum + GetV(i, k) * mat.GetV(k, j);
      }
    }

    /** `dot_mul(mat)`. */
    method DotMul(mat: DenseMatrix) returns (r: DenseMatrix)
      requires ProductDefined(Value(), mat.Value())
      ensures fresh(r) && r.Valid() && r.Value() == Product(Value(), mat.Value())
    {
      var rows, cols := rowNum, mat.colNum;
      var e: map<MatIndex, int> := map[];
      for i := 0 to rows
        invariant forall ix: MatIndex {:trigger ix in e} :: ix in e <==> ix.0 < i && ix.1 < cols
        invariant forall ix: MatIndex {:trigger e[ix]} :: ix in e ==> e[ix] == DotSum(Value(), mat.Value(), ix.0, ix.1, colNum)
      {
        for j := 0 to cols
          invariant forall ix: MatIndex {:trigger ix in e} :: ix in e <==> (ix.0 < i && ix.1 < cols) || (ix.0 == i && ix.1 < j)
          invariant forall ix: MatIndex {:trigger e[ix]} :: ix in e ==> e[ix] == DotSum(Value(), mat.Value(), ix.0, ix.1, colNum)
        {
          var s := CalcElm(mat, i, j);
          e := e[(i, j) := s];
        }
      }
      Extensionality(Matrix(rows, cols, e), Product(Value(), mat.Value()));
      r := new DenseMatrix.Assemble(Matrix(rows, cols, e));
    }

    /** `safe_dot_mul`: `None` exactly when the inner dimensions differ. */
    method SafeDotMul(mat: DenseMatrix) returns (r: Option<DenseMatrix>)
      requires colNum == mat.rowNum ==> ProductDefined(Value(), mat.Value())
      ensures r.None? <==> colNum != mat.rowNum
      ensures r.Some? ==> fresh(r.value) && r.value.Valid()
      ensures r.Some? ==> r.value.Value() == Product(Value(), mat.Value())
    {
      if colNum == mat.rowNum {
        var p := DotMul(mat);
        r := Some(p);
      } else {
        r := None;
      }
    }

    /** `neg()`. */
    method Neg() returns (r: DenseMatrix)
      requires Value().Filled()
      ensures fresh(r) && r.Valid() && r.Value() == Negate(Value())
    {
      var a := elements;
      var e := BuildEntries(rowNum, colNum, (i: nat, j: nat) requires (i, j) in a => 0 - a[(i, j)]);
      Extensionality(Matrix(rowNum, colNum, e), Negate(Value()));
      r := new DenseMatrix.Assemble(Matrix(rowNum, colNum, e));
    }

    /** `add(mat)`, over the shape of the receiver. */
    method Add(mat: DenseMatrix) returns (r: DenseMatrix)
      requires EntrywiseDefined(Value(), mat.Value())
      ensures fresh(r) && r.Valid() && r.Value() == Plus(Value(), mat.Value())
    {
      var a, b := elements, mat.elements;
      var e := BuildEntries(rowNum, colNum, (i: nat, j: nat) requires (i, j) in a && (i, j) in b => a[(i, j)] + b[(i, j)]);
      Extensionality(Matrix(rowNum, colNum, e), Plus(Value(), mat.Value()));
      r := new DenseMatrix.Assemble(Matrix(rowNum, colNum, e));
    }

    /** `safe_add`: `None` exactly when the shapes differ. */
    method SafeAdd(mat: DenseMatrix) returns (r: Option<DenseMatrix>)
      requires rowNum == mat.rowNum && colNum == mat.colNum ==> EntrywiseDefined(Value(), mat.Value())
      ensures r.None? <==> rowNum != mat.rowNum || colNum != mat.colNum
      ensures r.Some? ==> fresh(r.value) && r.value.Valid()
      ensures r.Some? ==> r.value.Value() == Plus(Value(), mat.Value())
    {
      if rowNum == mat.rowNum && colNum == mat.colNum {
        var s := Add(mat);
        r := Some(s);
      } else {
        r := None;
      }
    }

    /** `sub(mat)`, over the shape of the receiver. */
    method Sub(mat: DenseMatrix) returns (r: DenseMatrix)
      requires EntrywiseDefined(Value(), mat.Value())
      ensures fresh(r) && r.Valid() && r.Value() == Minus(Value(), mat.Value())
    {
      var a, b := elements, mat.elements;
      var e := BuildEntries(rowNum, colNum, (i: nat, j: nat) requires (i, j) in a && (i, j) in b => a[(i, j)] - b[(i, j)]);
      Extensionality(Matrix(rowNum, colNum, e), Minus(Value(), mat.Value()));
      r := new DenseMatrix.Assemble(Matrix(rowNum, colNum, e));
    }

    /** `safe_sub`: `None` exactly when the shapes differ. */
    method SafeSub(mat: DenseMatrix) returns (r: Option<DenseMatrix>)
      requires rowNum == mat.rowNum && colNum == mat.colNum ==> EntrywiseDefined(Value(), mat.Value())
      ensures r.None? <==> rowNum != mat.rowNum || colNum != mat.colNum
      ensures r.Some? ==> fresh(r.value) && r.value.Valid()
      ensures r.Some? ==> r.value.Value() == Minus(Value(), mat.Value())
    {
      if rowNum == mat.rowNum && colNum == mat.colNum {
        var s := Sub(mat);
        r := Some(s);
      } else {
        r := None;
      }
    }
  }
}
