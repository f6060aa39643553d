/** Shared vocabulary of the matrix types: the entry index, the set of
    in-range indices of a shape, and the bounds-guarded entry store used by
    both the dense and the sparse matrix. */
module Common {

  datatype Option<+T> = None | Some(value: T)

  /** A (row, column) pair; zero-based. */
  type MatIndex = (nat, nat)

  /** The indices of row `i` below column `c`: {(i, 0), ..., (i, c - 1)}. */
  function RowIndices(i: nat, c: nat): (s: set<MatIndex>)
    ensures forall ix: MatIndex {:trigger ix in s} :: ix in s <==> ix.0 == i && ix.1 < c
  {
    set j: nat | j < c :: (i, j)
  }

  /** Every in-range index of an `r` by `c` matrix. */
  function Indices(r: nat, c: nat): (s: set<MatIndex>)
    ensures forall ix: MatIndex {:trigger ix in s} :: ix in s <==> ix.0 < r && ix.1 < c
  {
    set i: nat, j: nat | i < r && j < c :: (i, j)
  }

  /** The indices of the inclusive block rows `rf..=rt`, columns `cf..=ct`. */
  function Block(rf: nat, rt: nat, cf: nat, ct: nat): (s: set<MatIndex>)
    ensures forall ix: MatIndex {:trigger ix in s} :: ix in s <==> rf <= ix.0 <= rt && cf <= ix.1 <= ct
  {
    set i: nat, j: nat | rf <= i <= rt && cf <= j <= ct :: (i, j)
  }

  lemma {:induction false} RowIndicesCard(i: nat, c: nat)
    ensures |RowIndices(i, c)| == c
  {
    if c > 0 {
      RowIndicesCard(i, c - 1);
      assert RowIndices(i, c) == RowIndices(i, c - 1) + {(i, c - 1)};
    }
  }

  /** An `r` by `c` matrix has `r * c` in-range indices. */
  lemma {:induction false} IndicesCard(r: nat, c: nat)
    ensures |Indices(r, c)| == r * c
  {
    if r > 0 {
      IndicesCard(r - 1, c);
      IndicesStep(r, c);
      MulPred(r, c);
    }
  }

  /** Adding a row adds `c` indices. */
  lemma IndicesStep(r: nat, c: nat)
    requires r > 0
    ensures |Indices(r, c)| == |Indices(r - 1, c)| + c
  {
    var prev, last := Indices(r - 1, c), RowIndices(r - 1, c);
    RowIndicesCard(r - 1, c);
    assert Indices(r, c) == prev + last;
    assert prev * last == {} by {
      forall ix | ix in prev * last ensures false { }
    }
    assert |prev + last| == |prev| + |last|;
  }

  lemma MulPred(r: nat, c: nat)
    requires r > 0
    ensures (r - 1) * c + c == r * c
  {
  }

  /** A subset of the in-range indices with as many elements as there are
      in-range indices is all of them. */
  lemma {:induction false} FullSubset(keys: set<MatIndex>, r: nat, c: nat)
    requires keys <= Indices(r, c)
    ensures keys == Indices(r, c) <==> |keys| == r * c
  {
    IndicesCard(r, c);
    if keys != Indices(r, c) {
      assert !(Indices(r, c) <= keys);
      var ix :| ix in Indices(r, c) && ix !in keys;
      assert keys <= Indices(r, c) - {ix};
      assert |Indices(r, c) - {ix}| == r * c - 1;
      SubsetCard(keys, Indices(r, c) - {ix});
    }
  }

  lemma {:induction false} SubsetCard<X>(a: set<X>, b: set<X>)
    requires a <= b
    ensures |a| <= |b|
  {
    if a != {} {
      var x :| x in a;
      SubsetCard(a - {x}, b - {x});
    }
  }

  /** What `set_v` does to the entry map of a `rows` by `cols` matrix:
      an in-range index is (over)written, an out-of-range one is ignored. */
  function SetEntry(e: map<MatIndex, int>, rows: nat, cols: nat, row: nat, col: nat, v: int): (r: map<MatIndex, int>)
    ensures row < rows && col < cols ==> (row, col) in r && r[(row, col)] == v
    ensures !(row < rows && col < cols) ==> r == e
    ensures forall ix: MatIndex {:trigger ix in r} :: ix != (row, col) ==> (ix in r <==> ix in e)
    ensures forall ix: MatIndex {:trigger r[ix]} :: ix in e && ix != (row, col) ==> r[ix] == e[ix]
    ensures e.Keys <= Indices(rows, cols) ==> r.Keys <= Indices(rows, cols)
  {
    if row < rows && col < cols then e[(row, col) := v] else e
  }

  /** Writing the same index twice keeps only the second value. */
  lemma SetEntryLastWins(e: map<MatIndex, int>, rows: nat, cols: nat, row: nat, col: nat, v: int, w: int)
    ensures SetEntry(SetEntry(e, rows, cols, row, col, v), rows, cols, row, col, w) == SetEntry(e, rows, cols, row, col, w)
  {
    if row < rows && col < cols {
      assert e[(row, col) := v][(row, col) := w] == e[(row, col) := w];
    }
  }

  /** Writes to two different indices can be done in either order. */
  lemma SetEntryCommutes(e: map<MatIndex, int>, rows: nat, cols: nat, r1: nat, c1: nat, v: int, r2: nat, c2: nat, w: int)
    requires (r1, c1) != (r2, c2)
    ensures SetEntry(SetEntry(e, rows, cols, r1, c1, v), rows, cols, r2, c2, w)
         == SetEntry(SetEntry(e, rows, cols, r2, c2, w), rows, cols, r1, c1, v)
  {
    if r1 < rows && c1 < cols && r2 < rows && c2 < cols {
      assert e[(r1, c1) := v][(r2, c2) := w] == e[(r2, c2) := w][(r1, c1) := v];
    }
  }
}
