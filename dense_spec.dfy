/** The values that the dense-matrix operators compute, as pure functions on
    a shape plus an entry map, and the algebraic laws those values obey.
    `Dense.DenseMatrix` is proved against these definitions. */
module DenseSpec {
  import opened Common

  /** A matrix value: a shape and the map from index to entry. */
  datatype Matrix = Matrix(rows: nat, cols: nat, entries: map<MatIndex, int>) {

    /** Every stored key lies inside the shape. */
    predicate Bounded() {
      entries.Keys <= Indices(rows, cols)
    }

    /** Every in-range index has a stored entry, so reading it cannot fail. */
    predicate Filled() {
      Indices(rows, cols) <= entries.Keys
    }

    /** Exactly the `rows * cols` in-range indices are stored. */
    predicate Complete() {
      entries.Keys == Indices(rows, cols)
    }
  }

  /** The matrix the builder loops produce: every in-range index `(i, j)`
      gets `f(i, j)`, and nothing else is stored. */
  function Build(rows: nat, cols: nat, f: (nat, nat) --> int): (m: Matrix)
    requires forall i: nat, j: nat :: i < rows && j < cols ==> f.requires(i, j)
    ensures m.rows == rows && m.cols == cols && m.Complete()
    ensures forall i: nat, j: nat {:trigger m.entries[(i, j)]} :: i < rows && j < cols ==> m.entries[(i, j)] == f(i, j)
  {
    Matrix(rows, cols, map ix {:trigger ix in Indices(rows, cols)} | ix in Indices(rows, cols) :: f(ix.0, ix.1))
  }

  /** Two complete matrices of one shape that agree at every index are equal. */
  lemma Extensionality(a: Matrix, b: Matrix)
    requires a.rows == b.rows && a.cols == b.cols && a.Complete() && b.Complete()
    requires forall i: nat, j: nat {:trigger a.entries[(i, j)]} :: i < a.rows && j < a.cols ==> a.entries[(i, j)] == b.entries[(i, j)]
    ensures a == b
  {
    forall ix | ix in a.entries
      ensures b.entries[ix] == a.entries[ix]
    {
      assert ix == (ix.0, ix.1);
    }
  }

  // ---------------------------------------------------------------- builders

  /** The row-major position of `(i, j)` in a flat sequence with `c` columns. */
  function Offset(c: nat, i: nat, j: nat): nat {
    i * c + j
  }

  /** Every row-major position of an `r` by `c` matrix is below `r * c`. */
  lemma OffsetsInRange(r: nat, c: nat)
    ensures forall i: nat, j: nat :: i < r && j < c ==> Offset(c, i, j) < r * c
  {
    forall i: nat, j: nat | i < r && j < c
      ensures Offset(c, i, j) < r * c
    {
      MulMonotone(i + 1, r, c);
      assert i * c + c == (i + 1) * c;
    }
  }

  lemma MulMonotone(a: nat, b: nat, c: nat)
    requires a <= b
    ensures a * c <= b * c
  {
  }

  /** `from(r, c, s)`: row-major, entry `(i, j)` is `s[i * c + j]`. */
  function FromRowMajor(r: nat, c: nat, s: seq<int>): (m: Matrix)
    requires r * c <= |s|
    ensures m.rows == r && m.cols == c && m.Complete()
    ensures forall i: nat, j: nat {:trigger m.entries[(i, j)]} :: i < r && j < c ==> Offset(c, i, j) < |s| && m.entries[(i, j)] == s[Offset(c, i, j)]
  {
    OffsetsInRange(r, c);
    Build(r, c, (i: nat, j: nat) requires Offset(c, i, j) < |s| => s[Offset(c, i, j)])
  }

  /** `ones(n)`: the `n` by `n` matrix whose every entry is 1. */
  function AllOnes(n: nat): (m: Matrix)
    ensures m.rows == n && m.cols == n && m.Complete()
    ensures forall i: nat, j: nat {:trigger m.entries[(i, j)]} :: i < n && j < n ==> m.entries[(i, j)] == 1
  {
    Build(n, n, (i: nat, j: nat) => 1)
  }

  /** `zeros(n)`: the `n` by `n` matrix whose every entry is 0. */
  function AllZeros(n: nat): (m: Matrix)
    ensures m.rows == n && m.cols == n && m.Complete()
    ensures forall i: nat, j: nat {:trigger m.entries[(i, j)]} :: i < n && j < n ==> m.entries[(i, j)] == 0
  {
    Build(n, n, (i: nat, j: nat) => 0)
  }

  /** `eyes(n)`: 1 on the diagonal and 0 everywhere else. */
  function Identity(n: nat): (m: Matrix)
    ensures m.rows == n && m.cols == n && m.Complete()
    ensures forall i: nat, j: nat {:trigger m.entries[(i, j)]} :: i < n && j < n ==> m.entries[(i, j)] == if i == j then 1 else 0
  {
    Build(n, n, (i: nat, j: nat) => if i == j then 1 else 0)
  }

  // --------------------------------------------------------------- operators

  /** `t()`: shape swapped, `A(i, j)` placed at `(j, i)`. */
  function Transpose(m: Matrix): (r: Matrix)
    requires m.Filled()
    ensures r.rows == m.cols && r.cols == m.rows && r.Complete()
    ensures forall i: nat, j: nat {:trigger r.entries[(j, i)]} :: i < m.rows && j < m.cols ==> r.entries[(j, i)] == m.entries[(i, j)]
  {
    Build(m.cols, m.rows, (i: nat, j: nat) requires (j, i) in m.entries => m.entries[(j, i)])
  }

  /** The entries that `slice(rf, rt, cf, ct)` reads are stored, and the
      unsigned range lengths `rt - rf + 1`, `ct - cf + 1` do not underflow. */
  predicate SliceDefined(m: Matrix, rf: nat, rt: nat, cf: nat, ct: nat) {
    rf <= rt && cf <= ct && Block(rf, rt, cf, ct) <= m.entries.Keys
  }

  /** `slice(rf, rt, cf, ct)`: the inclusive block re-indexed from zero. */
  function SubMatrix(m: Matrix, rf: nat, rt: nat, cf: nat, ct: nat): (r: Matrix)
    requires SliceDefined(m, rf, rt, cf, ct)
    ensures r.rows == rt - rf + 1 && r.cols == ct - cf + 1 && r.Complete()
    ensures forall i: nat, j: nat {:trigger r.entries[(i, j)]} :: i < r.rows && j < r.cols ==>
              (i + rf, j + cf) in m.entries && r.entries[(i, j)] == m.entries[(i + rf, j + cf)]
  {
    Build(rt - rf + 1, ct - cf + 1,
          (i: nat, j: nat) requires (i + rf, j + cf) in m.entries => m.entries[(i + rf, j + cf)])
  }

  /** `scalar_mul(k)`: every entry multiplied by `k`. */
  function Scale(m: Matrix, k: int): (r: Matrix)
    requires m.Filled()
    ensures r.rows == m.rows && r.cols == m.cols && r.Complete()
    ensures forall i: nat, j: nat {:trigger r.entries[(i, j)]} :: i < m.rows && j < m.cols ==> r.entries[(i, j)] == k * m.entries[(i, j)]
  {
    Build(m.rows, m.cols, (i: nat, j: nat) requires (i, j) in m.entries => k * m.entries[(i, j)])
  }

  /** `neg()`: every entry replaced by `0 - entry`. */
  function Negate(m: Matrix): (r: Matrix)
    requires m.Filled()
    ensures r.rows == m.rows && r.cols == m.cols && r.Complete()
    ensures forall i: nat, j: nat {:trigger r.entries[(i, j)]} :: i < m.rows && j < m.cols ==> r.entries[(i, j)] == 0 - m.entries[(i, j)]
  {
    Build(m.rows, m.cols, (i: nat, j: nat) requires (i, j) in m.entries => 0 - m.entries[(i, j)])
  }

  /** `add` and `sub` iterate over the shape of `a` and read `a` and `b` at
      every index of it; `b` may be larger than `a`. */
  predicate EntrywiseDefined(a: Matrix, b: Matrix) {
    a.Filled() && Indices(a.rows, a.cols) <= b.entries.Keys
  }

  /** `add(b)`: the entrywise sum over the shape of `a`. */
  function Plus(a: Matrix, b: Matrix): (r: Matrix)
    requires EntrywiseDefined(a, b)
    ensures r.rows == a.rows && r.cols == a.cols && r.Complete()
    ensures forall i: nat, j: nat {:trigger r.entries[(i, j)]} :: i < a.rows && j < a.cols ==> r.entries[(i, j)] == a.entries[(i, j)] + b.entries[(i, j)]
  {
    Build(a.rows, a.cols,
          (i: nat, j: nat) requires (i, j) in a.entries && (i, j) in b.entries => a.entries[(i, j)] + b.entries[(i, j)])
  }

  /** `sub(b)`: the entrywise difference over the shape of `a`. */
  function Minus(a: Matrix, b: Matrix): (r: Matrix)
    requires EntrywiseDefined(a, b)
    ensures r.rows == a.rows && r.cols == a.cols && r.Complete()
    ensures forall i: nat, j: nat {:trigger r.entries[(i, j)]} :: i < a.rows && j < a.cols ==> r.entries[(i, j)] == a.entries[(i, j)] - b.entries[(i, j)]
  {
    Build(a.rows, a.cols,
          (i: nat, j: nat) requires (i, j) in a.entries && (i, j) in b.entries => a.entries[(i, j)] - b.entries[(i, j)])
  }

  /** The entries that `dot_mul` reads are stored: `a(i, k)` for every row
      `i` and inner index `k` (read only if `b` has a column), and `b(k, j)`
      for every inner index `k` and column `j` (read only if `a` has a row). */
  predicate ProductDefined(a: Matrix, b: Matrix) {
    (b.cols > 0 ==> a.Filled()) &&
    (a.rows > 0 ==> Indices(a.cols, b.cols) <= b.entries.Keys)
  }

  /** The running sum `dot_mul` accumulates for entry `(i, j)` after the
      first `n` inner indices: `a(i, 0) * b(0, j) + ... + a(i, n-1) * b(n-1, j)`. */
  function DotSum(a: Matrix, b: Matrix, i: nat, j: nat, n: nat): int
    requires forall k: nat :: k < n ==> (i, k) in a.entries && (k, j) in b.entries
  {
    if n == 0 then 0 else DotSum(a, b, i, j, n - 1) + a.entries[(i, n - 1)] * b.entries[(n - 1, j)]
  }

  /** `dot_mul(b)`: shape `(a.rows, b.cols)`, entry `(i, j)` the sum over
      `k < a.cols` of `a(i, k) * b(k, j)`. */
  function Product(a: Matrix, b: Matrix): (r: Matrix)
    requires ProductDefined(a, b)
    ensures r.rows == a.rows && r.cols == b.cols && r.Complete()
    ensures forall i: nat, j: nat {:trigger r.entries[(i, j)]} :: i < a.rows && j < b.cols ==> r.entries[(i, j)] == DotSum(a, b, i, j, a.cols)
  {
    Build(a.rows, b.cols,
          (i: nat, j: nat) requires forall k: nat :: k < a.cols ==> (i, k) in a.entries && (k, j) in b.entries
            => DotSum(a, b, i, j, a.cols))
  }

  // ------------------------------------------------------------------- laws

  /** The completeness test of `show()` (`row * col == len`) is exact for a
      matrix whose keys are in range. */
  lemma CompleteIffCount(m: Matrix)
    requires m.Bounded()
    ensures m.Complete() <==> |m.entries| == m.rows * m.cols
  {
    assert |m.entries| == |m.entries.Keys|;
    FullSubset(m.entries.Keys, m.rows, m.cols);
  }

  /** `t(t(A)) == A`. */
  lemma TransposeInvolutive(m: Matrix)
    requires m.Complete()
    ensures Transpose(Transpose(m)) == m
  {
    Extensionality(Transpose(Transpose(m)), m);
  }

  /** The identity matrix is symmetric. */
  lemma TransposeIdentity(n: nat)
    ensures Transpose(Identity(n)) == Identity(n)
  {
    Extensionality(Transpose(Identity(n)), Identity(n));
  }

  /** Slicing the whole matrix gives the matrix back. */
  lemma SubMatrixWhole(m: Matrix)
    requires m.Complete() && m.rows > 0 && m.cols > 0
    ensures SliceDefined(m, 0, m.rows - 1, 0, m.cols - 1)
    ensures SubMatrix(m, 0, m.rows - 1, 0, m.cols - 1) == m
  {
    Extensionality(SubMatrix(m, 0, m.rows - 1, 0, m.cols - 1), m);
  }

  /** Slicing commutes with transposition: the block of `t(A)` is `t` of the
      block of `A`. */
  lemma SubMatrixTranspose(m: Matrix, rf: nat, rt: nat, cf: nat, ct: nat)
    requires m.Complete() && rf <= rt < m.rows && cf <= ct < m.cols
    ensures SliceDefined(m, rf, rt, cf, ct) && SliceDefined(Transpose(m), cf, ct, rf, rt)
    ensures SubMatrix(Transpose(m), cf, ct, rf, rt) == Transpose(SubMatrix(m, rf, rt, cf, ct))
  {
    Extensionality(SubMatrix(Transpose(m), cf, ct, rf, rt), Transpose(SubMatrix(m, rf, rt, cf, ct)));
  }

  /** `A + B == B + A`. */
  lemma PlusCommutative(a: Matrix, b: Matrix)
    requires a.Complete() && b.Complete() && a.rows == b.rows && a.cols == b.cols
    ensures Plus(a, b) == Plus(b, a)
  {
    Extensionality(Plus(a, b), Plus(b, a));
  }

  /** `(A + B) + C == A + (B + C)`. */
  lemma PlusAssociative(a: Matrix, b: Matrix, c: Matrix)
    requires a.Complete() && b.Complete() && c.Complete()
    requires a.rows == b.rows == c.rows && a.cols == b.cols == c.cols
    ensures Plus(Plus(a, b), c) == Plus(a, Plus(b, c))
  {
    Extensionality(Plus(Plus(a, b), c), Plus(a, Plus(b, c)));
  }

  /** The zero matrix is the identity of `add`. */
  lemma PlusZeros(m: Matrix)
    requires m.Complete() && m.rows == m.cols
    ensures Plus(m, AllZeros(m.rows)) == m
  {
    Extensionality(Plus(m, AllZeros(m.rows)), m);
  }

  /** `A - B == A + (-B)`. */
  lemma MinusIsPlusNegate(a: Matrix, b: Matrix)
    requires a.Complete() && b.Complete() && a.rows == b.rows && a.cols == b.cols
    ensures Minus(a, b) == Plus(a, Negate(b))
  {
    Extensionality(Minus(a, b), Plus(a, Negate(b)));
  }

  /** Subtracting and adding back the same matrix restores the original. */
  lemma MinusThenPlus(a: Matrix, b: Matrix)
    requires a.Complete() && b.Complete() && a.rows == b.rows && a.cols == b.cols
    ensures Plus(Minus(a, b), b) == a
  {
    Extensionality(Plus(Minus(a, b), b), a);
  }

  /** `-(-A) == A`. */
  lemma NegateInvolutive(m: Matrix)
    requires m.Complete()
    ensures Negate(Negate(m)) == m
  {
    Extensionality(Negate(Negate(m)), m);
  }

  /** Scaling by -1 is negation, and scaling by 1 changes nothing. */
  lemma ScaleByUnits(m: Matrix)
    requires m.Complete()
    ensures Scale(m, -1) == Negate(m)
    ensures Scale(m, 1) == m
  {
    Extensionality(Scale(m, -1), Negate(m));
    Extensionality(Scale(m, 1), m);
  }

  /** Against the identity on the right, the running sum picks out `m(i, j)`
      once the inner index has passed `j`. */
  lemma {:induction false} DotSumIdentityRight(m: Matrix, p: nat, i: nat, j: nat, n: nat)
    requires j < p && n <= p
    requires forall k: nat :: k < n ==> (i, k) in m.entries
    requires j < n ==> (i, j) in m.entries
    ensures forall k: nat :: k < n ==> (k, j) in Identity(p).entries
    ensures DotSum(m, Identity(p), i, j, n) == if j < n then m.entries[(i, j)] else 0
  {
    if n > 0 {
      DotSumIdentityRight(m, p, i, j, n - 1);
    }
  }

  /** Against the identity on the left, the running sum picks out `m(i, j)`
      once the inner index has passed `i`. */
  lemma {:induction false} DotSumIdentityLeft(m: Matrix, p: nat, i: nat, j: nat, n: nat)
    requires i < p && n <= p
    requires forall k: nat :: k < n ==> (k, j) in m.entries
    requires i < n ==> (i, j) in m.entries
    ensures forall k: nat :: k < n ==> (i, k) in Identity(p).entries
    ensures DotSum(Identity(p), m, i, j, n) == if i < n then m.entries[(i, j)] else 0
  {
    if n > 0 {
      DotSumIdentityLeft(m, p, i, j, n - 1);
    }
  }

  /** `A . eyes(A.col) == A`. */
  lemma ProductIdentityRight(m: Matrix)
    requires m.Complete()
    ensures ProductDefined(m, Identity(m.cols))
    ensures Product(m, Identity(m.cols)) == m
  {
    var r := Product(m, Identity(m.cols));
    forall i: nat, j: nat | i < m.rows && j < m.cols
      ensures r.entries[(i, j)] == m.entries[(i, j)]
    {
      DotSumIdentityRight(m, m.cols, i, j, m.cols);
    }
    Extensionality(r, m);
  }

  /** `eyes(A.row) . A == A`. */
  lemma ProductIdentityLeft(m: Matrix)
    requires m.Complete()
    ensures ProductDefined(Identity(m.rows), m)
    ensures Product(Identity(m.rows), m) == m
  {
    var r := Product(Identity(m.rows), m);
    forall i: nat, j: nat | i < m.rows && j < m.cols
      ensures r.entries[(i, j)] == m.entries[(i, j)]
    {
      DotSumIdentityLeft(m, m.rows, i, j, m.rows);
    }
    Extensionality(r, m);
  }
}
