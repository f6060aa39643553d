# Matrix and mesh containers

This project models the storage layer of two crates: the map-backed matrix
types of `evolutionary_algebra` and the cell and mesh containers of
`evolutionary_pde`. It proves properties of that model.

- **Common** (`common.dfy`) holds what the matrix types share:
  - the index pair `MatIndex`;
  - the set of in-range indices of a shape, and its size `rows * cols`;
  - `SetEntry`, the bounds-guarded write that both `set_v` functions perform.
- **DenseSpec** (`dense_spec.dfy`) defines matrix values as a shape plus an
  entry map.
  - It has one pure function per dense operator: transpose, slice, scale,
    negate, add, subtract and product.
  - It also has the builders `from`, `ones`, `zeros` and `eyes`.
  - Every operator's result is *complete*: exactly the `rows * cols`
    in-range keys are stored.
  - Each operator's precondition names exactly the entries the code reads,
    because `get_v` panics on a missing key.
  - The algebraic laws of the operators are proved as lemmas.
- **Dense** (`dense_matrix.dfy`) is the class `DenseMatrix`.
  - The builder macros, `t`, `slice` and `dot_mul` are methods that fill
    a fresh map with the same nested loops as the Rust code.
  - `set_v` updates the receiver's map in place.
  - Every method is proved to produce the `DenseSpec` value of its
    receiver.
  - The `safe_*` variants return `None` exactly when the Rust guard fails.
  - `get_v`, `row` and `col` are plain reads.
- **Sparse** (`sparse_matrix.dfy`) is the class `SparseMatrix`.
  - Its map starts empty.
  - `set_v` stores any value at an in-range index, zeros included.
  - `get_v` is defined only on stored keys. There is no zero default.
  - The shape never changes, and stored keys always lie inside it.
- **Mesh** (`mesh.dfy`) has two cell classes, `TetragonCell` and
  `HexahedronCell`.
  - Each cell has an id, neighbour ids and its corner points.
  - Each cell also has a value buffer of `dim` slots (an `array<real>`).
    It starts as all zeros and `update_val` changes one slot in place.
  - Two mesh classes hold a table from id to cell and a `size` counter.
  - `add` increments the counter unconditionally, so it is never below the
    number of distinct ids.

Element type `T: Num` is modelled as `int`, and cell values (`f32`) as
`real`. The cell values are only stored and read back, never computed with.

## Model

| member | source | states |
|---|---|---|
| Common.SetEntry | evolutionary_algebra/src/linear_algebra/matrix/dense/dense_matrix.rs:88-94 | In range: `(row, col)` maps to `v` and every other key and value is kept. Out of range: the map is unchanged. Keys stay inside the shape. |
| Common.SetEntryLastWins | evolutionary_algebra/src/linear_algebra/matrix/dense/dense_matrix.rs:88-94 | Two writes to the same index leave only the second value. |
| Common.SetEntryCommutes | evolutionary_algebra/src/linear_algebra/matrix/sparse/sparse_matrix.rs:31-37 | Writes to two different indices give the same map in either order. |
| Common.IndicesCard | evolutionary_algebra/src/linear_algebra/matrix/dense/dense_matrix.rs:17-33 | A shape has exactly `rows * cols` in-range indices, so a complete matrix stores that many entries. |
| Common.FullSubset | evolutionary_algebra/src/linear_algebra/matrix/dense/dense_matrix.rs:201-210 | A set of in-range keys is all of them iff it has `rows * cols` elements. |
| DenseSpec.Build | evolutionary_algebra/src/linear_algebra/matrix/dense/dense_matrix.rs:35-51 | The builder result has the given shape and is complete, and holds `f(i, j)` at every in-range `(i, j)`. |
| DenseSpec.OffsetsInRange | evolutionary_algebra/src/linear_algebra/matrix/dense/dense_matrix.rs:65-68 | Every row-major offset `i * c + j` of an `r` by `c` shape is below `r * c`, so `from` reads inside the slice. |
| DenseSpec.FromRowMajor | evolutionary_algebra/src/linear_algebra/matrix/dense/dense_matrix.rs:65-68 | `from(r, c, s)` is complete, with entry `(i, j)` equal to `s[i * c + j]`. It needs `r * c <= \|s\|`. |
| DenseSpec.AllOnes | evolutionary_algebra/src/linear_algebra/matrix/dense/dense_matrix.rs:217-219 | `ones(n)` is a complete `n` by `n` matrix whose every entry is 1. |
| DenseSpec.AllZeros | evolutionary_algebra/src/linear_algebra/matrix/dense/dense_matrix.rs:221-223 | `zeros(n)` is a complete `n` by `n` matrix whose every entry is 0. |
| DenseSpec.Identity | evolutionary_algebra/src/linear_algebra/matrix/dense/dense_matrix.rs:225-235 | `eyes(n)` is complete, with 1 exactly where `i == j` and 0 elsewhere. |
| DenseSpec.Transpose | evolutionary_algebra/src/linear_algebra/matrix/dense/dense_matrix.rs:70-85 | The shape is swapped, and `A(i, j)` sits at `(j, i)`. Defined when every in-range entry is stored. |
| DenseSpec.SubMatrix | evolutionary_algebra/src/linear_algebra/matrix/dense/dense_matrix.rs:102-117 | The shape is `(rt - rf + 1, ct - cf + 1)`, complete, with entry `(i, j) = A(i + rf, j + cf)`, a stored entry of `A`. It needs `rf <= rt`, `cf <= ct` and the block stored. |
| DenseSpec.Scale | evolutionary_algebra/src/linear_algebra/matrix/dense/dense_matrix.rs:141-143 | Entry `(i, j)` is `k * A(i, j)` over the shape of `A`. |
| DenseSpec.Negate | evolutionary_algebra/src/linear_algebra/matrix/dense/dense_matrix.rs:168-171 | Entry `(i, j)` is `0 - A(i, j)`. |
| DenseSpec.Plus | evolutionary_algebra/src/linear_algebra/matrix/dense/dense_matrix.rs:173-175 | Entrywise sum over the shape of the receiver. The argument may be larger. |
| DenseSpec.Minus | evolutionary_algebra/src/linear_algebra/matrix/dense/dense_matrix.rs:187-189 | Entrywise difference over the shape of the receiver. |
| DenseSpec.Product | evolutionary_algebra/src/linear_algebra/matrix/dense/dense_matrix.rs:145-156 | Shape `(A.rows, B.cols)`, complete, with entry `(i, j)` the sum over `k < A.cols` of `A(i, k) * B(k, j)`. |
| DenseSpec.CompleteIffCount | evolutionary_algebra/src/linear_algebra/matrix/dense/dense_matrix.rs:201-210 | For in-range keys, the `row * col == len` test of `show` holds iff the matrix is complete. |
| DenseSpec.TransposeInvolutive | evolutionary_algebra/src/linear_algebra/matrix/dense/dense_matrix.rs:70-85 | `t(t(A)) == A` for a complete `A`. |
| DenseSpec.TransposeIdentity | evolutionary_algebra/src/linear_algebra/matrix/dense/dense_matrix.rs:225-235 | `t(eyes(n)) == eyes(n)`. |
| DenseSpec.SubMatrixWhole | evolutionary_algebra/src/linear_algebra/matrix/dense/dense_matrix.rs:102-117 | Slicing the full range of a complete matrix gives it back. |
| DenseSpec.SubMatrixTranspose | evolutionary_algebra/src/linear_algebra/matrix/dense/dense_matrix.rs:102-117 | The `(cf..ct, rf..rt)` block of `t(A)` is `t` of the `(rf..rt, cf..ct)` block of `A`. |
| DenseSpec.PlusCommutative | evolutionary_algebra/src/linear_algebra/matrix/dense/dense_matrix.rs:173-175 | `A + B == B + A` for complete matrices of one shape. |
| DenseSpec.PlusAssociative | evolutionary_algebra/src/linear_algebra/matrix/dense/dense_matrix.rs:173-175 | `(A + B) + C == A + (B + C)`. |
| DenseSpec.PlusZeros | evolutionary_algebra/src/linear_algebra/matrix/dense/dense_matrix.rs:173-175 | `A + zeros(n) == A` for a complete square `A`. |
| DenseSpec.MinusIsPlusNegate | evolutionary_algebra/src/linear_algebra/matrix/dense/dense_matrix.rs:187-189 | `A - B == A + neg(B)`. |
| DenseSpec.MinusThenPlus | evolutionary_algebra/src/linear_algebra/matrix/dense/dense_matrix.rs:187-189 | `(A - B) + B == A`. |
| DenseSpec.NegateInvolutive | evolutionary_algebra/src/linear_algebra/matrix/dense/dense_matrix.rs:168-171 | `neg(neg(A)) == A`. |
| DenseSpec.ScaleByUnits | evolutionary_algebra/src/linear_algebra/matrix/dense/dense_matrix.rs:141-143 | `scalar_mul(-1)` is `neg`, and `scalar_mul(1)` is the identity. |
| DenseSpec.DotSumIdentityRight | evolutionary_algebra/src/linear_algebra/matrix/dense/dense_matrix.rs:147-153 | Against `eyes` on the right, the running sum picks out `A(i, j)` once `k` has passed `j`, and is 0 before. |
| DenseSpec.DotSumIdentityLeft | evolutionary_algebra/src/linear_algebra/matrix/dense/dense_matrix.rs:147-153 | Against `eyes` on the left, the running sum picks out `A(i, j)` once `k` has passed `i`, and is 0 before. |
| DenseSpec.ProductIdentityRight | evolutionary_algebra/src/linear_algebra/matrix/dense/dense_matrix.rs:145-156 | `A . eyes(A.col) == A`. |
| DenseSpec.ProductIdentityLeft | evolutionary_algebra/src/linear_algebra/matrix/dense/dense_matrix.rs:145-156 | `eyes(A.row) . A == A`. |
| Dense.BuildEntries | evolutionary_algebra/src/linear_algebra/matrix/dense/dense_matrix.rs:35-51 | The nested builder loops store `f(i, j)` at exactly the in-range indices. |
| Dense.DenseMatrix.Assemble | evolutionary_algebra/src/linear_algebra/matrix/dense/dense_matrix.rs:26-30 | The struct literal that ends each builder (also at lines 44-48, 80-84 and 112-116). The object holds exactly the given value, which must keep its keys in range. |
| Dense.DenseMatrix.Row | evolutionary_algebra/src/linear_algebra/matrix/dense/dense_matrix.rs:130-133 | `row()` is the row count of the value, and every stored key's row is below it. |
| Dense.DenseMatrix.Col | evolutionary_algebra/src/linear_algebra/matrix/dense/dense_matrix.rs:136-139 | `col()` is the column count of the value, and every stored key's column is below it. |
| Dense.DenseMatrix.GetV | evolutionary_algebra/src/linear_algebra/matrix/dense/dense_matrix.rs:97-100 | Defined only for a stored key, which is where `expect("not find key!")` does not panic. A readable key lies inside the shape, and the result is one of the stored values. |
| Dense.DenseMatrix.constructor | evolutionary_algebra/src/linear_algebra/matrix/dense/dense_matrix.rs:56-63 | `new(r, c)` has shape `(r, c)` and no stored entries. |
| Dense.DenseMatrix.From | evolutionary_algebra/src/linear_algebra/matrix/dense/dense_matrix.rs:65-68 | The built object holds `FromRowMajor(r, c, s)`. |
| Dense.DenseMatrix.Ones | evolutionary_algebra/src/linear_algebra/matrix/dense/dense_matrix.rs:217-219 | The built object holds `AllOnes(n)`. |
| Dense.DenseMatrix.Zeros | evolutionary_algebra/src/linear_algebra/matrix/dense/dense_matrix.rs:221-223 | The built object holds `AllZeros(n)`. |
| Dense.DenseMatrix.Eyes | evolutionary_algebra/src/linear_algebra/matrix/dense/dense_matrix.rs:225-235 | The built object holds `Identity(n)`. |
| Dense.DenseMatrix.SetV | evolutionary_algebra/src/linear_algebra/matrix/dense/dense_matrix.rs:88-94 | The map becomes `SetEntry` of the old map: write in range, no-op out of range. Only the map may change (the shape is constant), the key invariant is kept, and the value reads back. |
| Dense.DenseMatrix.T | evolutionary_algebra/src/linear_algebra/matrix/dense/dense_matrix.rs:70-85 | Returns a fresh matrix holding `Transpose` of the receiver. |
| Dense.DenseMatrix.SliceRow | evolutionary_algebra/src/linear_algebra/matrix/dense/dense_matrix.rs:107-111 | One pass of the outer loop of `slice`: the inner loop over `col_from..=col_to` adds row `i - row_from` of the block and keeps every stored entry equal to the slice's. |
| Dense.DenseMatrix.Slice | evolutionary_algebra/src/linear_algebra/matrix/dense/dense_matrix.rs:102-117 | Returns a fresh matrix holding `SubMatrix` of the receiver. |
| Dense.DenseMatrix.SafeSlice | evolutionary_algebra/src/linear_algebra/matrix/dense/dense_matrix.rs:119-127 | `None` iff `row_to >= row_num` or `col_to >= col_num`, otherwise the slice. |
| Dense.DenseMatrix.ScalarMul | evolutionary_algebra/src/linear_algebra/matrix/dense/dense_matrix.rs:141-143 | Returns a fresh matrix holding `Scale` of the receiver. |
| Dense.DenseMatrix.CalcElm | evolutionary_algebra/src/linear_algebra/matrix/dense/dense_matrix.rs:147-153 | The accumulation loop returns `DotSum` over all `self.col()` inner indices. |
| Dense.DenseMatrix.DotMul | evolutionary_algebra/src/linear_algebra/matrix/dense/dense_matrix.rs:145-156 | Returns a fresh matrix holding `Product` of the two values. |
| Dense.DenseMatrix.SafeDotMul | evolutionary_algebra/src/linear_algebra/matrix/dense/dense_matrix.rs:158-166 | `None` iff `self.col_num != mat.row_num`, otherwise `dot_mul`. |
| Dense.DenseMatrix.Neg | evolutionary_algebra/src/linear_algebra/matrix/dense/dense_matrix.rs:168-171 | Returns a fresh matrix holding `Negate` of the receiver. |
| Dense.DenseMatrix.Add | evolutionary_algebra/src/linear_algebra/matrix/dense/dense_matrix.rs:173-175 | Returns a fresh matrix holding `Plus` of the two values. |
| Dense.DenseMatrix.SafeAdd | evolutionary_algebra/src/linear_algebra/matrix/dense/dense_matrix.rs:177-185 | `None` iff row or column counts differ, otherwise `add`. |
| Dense.DenseMatrix.Sub | evolutionary_algebra/src/linear_algebra/matrix/dense/dense_matrix.rs:187-189 | Returns a fresh matrix holding `Minus` of the two values. |
| Dense.DenseMatrix.SafeSub | evolutionary_algebra/src/linear_algebra/matrix/dense/dense_matrix.rs:191-199 | `None` iff row or column counts differ, otherwise `sub`. |
| Sparse.SparseMatrix.constructor | evolutionary_algebra/src/linear_algebra/matrix/sparse/sparse_matrix.rs:21-28 | `new(r, c)` has shape `(r, c)` and an empty map. |
| Sparse.SparseMatrix.Row | evolutionary_algebra/src/linear_algebra/matrix/sparse/sparse_matrix.rs:46-49 | Every stored key's row is below `row()`. |
| Sparse.SparseMatrix.Col | evolutionary_algebra/src/linear_algebra/matrix/sparse/sparse_matrix.rs:52-55 | Every stored key's column is below `col()`. |
| Sparse.SparseMatrix.GetV | evolutionary_algebra/src/linear_algebra/matrix/sparse/sparse_matrix.rs:40-43 | Defined only for a stored key: `expect("not find key!")` panics otherwise, and there is no zero default. A readable key lies inside the shape, and the result is one of the stored values. |
| Sparse.SparseMatrix.SetV | evolutionary_algebra/src/linear_algebra/matrix/sparse/sparse_matrix.rs:31-37 | The map becomes `SetEntry` of the old map. An in-range key becomes stored with `v` (zero included). An out-of-range call changes nothing. Only the map may change: the shape is constant. |
| Sparse.StoredBound | evolutionary_algebra/src/linear_algebra/matrix/sparse/sparse_matrix.rs:31-55 | With keys kept in range, at most `row_num * col_num` entries are ever stored. |
| Mesh.InsertCard | evolutionary_pde/src/mesh/structured/mesh.rs:316-319 | Inserting into a map grows it by one iff the key is new. |
| Mesh.TetragonCell.constructor | evolutionary_pde/src/mesh/structured/mesh.rs:34-55 | The buffer is fresh, has `dim` slots and all of them are 0. `dim`, `id` and each of `ne`, `nw`, `nn`, `ns` read back their own argument. The geometry is the four corners. |
| Mesh.TetragonCell.Dim | evolutionary_pde/src/mesh/structured/mesh.rs:57-59 | `dim()` equals the length of the value buffer. |
| Mesh.TetragonCell.GetVal | evolutionary_pde/src/mesh/structured/mesh.rs:65-67 | Defined only below the buffer length, where indexing `dim_values` does not panic. A readable slot is below `dim`, and the result is one of the buffer's values. |
| Mesh.TetragonCell.Nn | evolutionary_pde/src/mesh/structured/mesh.rs:69-71 | A plain read of the `nn_id` field, with no contract of its own. `Mesh.TetragonCell.constructor` ensures it returns the `nn_id` argument given at construction. |
| Mesh.TetragonCell.Ns | evolutionary_pde/src/mesh/structured/mesh.rs:73-75 | A plain read of the `ns_id` field, with no contract of its own. `Mesh.TetragonCell.constructor` ensures it returns the `ns_id` argument given at construction. |
| Mesh.TetragonCell.Nw | evolutionary_pde/src/mesh/structured/mesh.rs:77-79 | A plain read of the `nw_id` field, with no contract of its own. `Mesh.TetragonCell.constructor` ensures it returns the `nw_id` argument given at construction. |
| Mesh.TetragonCell.Ne | evolutionary_pde/src/mesh/structured/mesh.rs:81-83 | A plain read of the `ne_id` field, with no contract of its own. `Mesh.TetragonCell.constructor` ensures it returns the `ne_id` argument given at construction. |
| Mesh.TetragonCell.Id | evolutionary_pde/src/mesh/structured/mesh.rs:85-87 | A plain read of the `id` field, with no contract of its own. `Mesh.TetragonCell.constructor` ensures it returns the `id` argument given at construction. |
| Mesh.TetragonCell.UpdateVal | evolutionary_pde/src/mesh/structured/mesh.rs:61-63 | Needs `at < dim`. The buffer becomes the old one with slot `at` set to `v`, and `get_val(at) == v`. Other slots and `dim` are unchanged. |
| Mesh.HexahedronCell.constructor | evolutionary_pde/src/mesh/structured/mesh.rs:149-174 | Same as the tetragon constructor, plus `nt` and `nb`, with eight corners. |
| Mesh.HexahedronCell.Dim | evolutionary_pde/src/mesh/structured/mesh.rs:176-178 | `dim()` equals the length of the value buffer. |
| Mesh.HexahedronCell.GetVal | evolutionary_pde/src/mesh/structured/mesh.rs:184-186 | Defined only below the buffer length. A readable slot is below `dim`, and the result is one of the buffer's values. |
| Mesh.HexahedronCell.Nn | evolutionary_pde/src/mesh/structured/mesh.rs:188-190 | A plain read of the `nn_id` field, with no contract of its own. `Mesh.HexahedronCell.constructor` ensures it returns the `nn_id` argument given at construction. |
| Mesh.HexahedronCell.Ns | evolutionary_pde/src/mesh/structured/mesh.rs:192-194 | A plain read of the `ns_id` field, with no contract of its own. `Mesh.HexahedronCell.constructor` ensures it returns the `ns_id` argument given at construction. |
| Mesh.HexahedronCell.Nw | evolutionary_pde/src/mesh/structured/mesh.rs:196-198 | A plain read of the `nw_id` field, with no contract of its own. `Mesh.HexahedronCell.constructor` ensures it returns the `nw_id` argument given at construction. |
| Mesh.HexahedronCell.Ne | evolutionary_pde/src/mesh/structured/mesh.rs:200-202 | A plain read of the `ne_id` field, with no contract of its own. `Mesh.HexahedronCell.constructor` ensures it returns the `ne_id` argument given at construction. |
| Mesh.HexahedronCell.Nt | evolutionary_pde/src/mesh/structured/mesh.rs:204-206 | A plain read of the `nt_id` field, with no contract of its own. `Mesh.HexahedronCell.constructor` ensures it returns the `nt_id` argument given at construction. |
| Mesh.HexahedronCell.Nb | evolutionary_pde/src/mesh/structured/mesh.rs:208-210 | A plain read of the `nb_id` field, with no contract of its own. `Mesh.HexahedronCell.constructor` ensures it returns the `nb_id` argument given at construction. |
| Mesh.HexahedronCell.Id | evolutionary_pde/src/mesh/structured/mesh.rs:212-214 | A plain read of the `id` field, with no contract of its own. `Mesh.HexahedronCell.constructor` ensures it returns the `id` argument given at construction. |
| Mesh.HexahedronCell.UpdateVal | evolutionary_pde/src/mesh/structured/mesh.rs:180-182 | The same single-slot update and read-back. |
| Mesh.TetragonMesh.constructor | evolutionary_pde/src/mesh/structured/mesh.rs:309-314 | `size == 0` and an empty table. |
| Mesh.TetragonMesh.Add | evolutionary_pde/src/mesh/structured/mesh.rs:316-319 | `cells[id] = cell`, other ids untouched, `size` up by exactly 1, and `size >= \|cells\|` kept. |
| Mesh.HexahedronMesh.constructor | evolutionary_pde/src/mesh/structured/mesh.rs:323-328 | `size == 0` and an empty table. |
| Mesh.HexahedronMesh.Add | evolutionary_pde/src/mesh/structured/mesh.rs:330-333 | `cells[id] = cell`, other ids untouched, `size` up by exactly 1, and `size >= \|cells\|` kept. |
| Mesh.TetragonCellScenario | evolutionary_pde/src/mesh/structured/mesh.rs:131-145 | A 3-slot cell reports `dim() == 3` and reads back 0.5 from slot 2. |
| Mesh.HexahedronCellScenario | evolutionary_pde/src/mesh/structured/mesh.rs:274-294 | A 4-slot cell reports `dim() == 4` and reads back 0.5 from slot 2. |
| Mesh.ReAddScenario | evolutionary_pde/src/mesh/structured/mesh.rs:316-319 | Adding twice under one id leaves one cell but `size == 2`. |

## Left out

- `show` (dense_matrix.rs:201-210) prints to standard output. Only its completeness test is modelled, as `CompleteIffCount`.
- `usize` arithmetic is modelled as unbounded `nat`. This includes `size += 1` and the `row_to - row_from + 1` of `slice`, which would underflow when `row_from > row_to`. `slice` therefore requires `row_from <= row_to` and `col_from <= col_to`.
- Dense.DenseMatrix.SafeSlice: since `safe_slice` does not check `row_from <= row_to`, the in-range branch keeps `slice`'s precondition as a requirement on the caller.
- `T: Num` is a mathematical integer, so there is no overflow and no wrap-around in `scalar_mul`, `add`, `sub` and `dot_mul`.
- DenseSpec.PlusAssociative and DenseSpec.MinusThenPlus rely on exact `int` arithmetic. They fail under rounding for `T = f32`, and `f32` is the only element type the crate's own demo uses (evolutionary_algebra/src/bin/app.rs:6, 15, 52, 70, 83).
- `f32` cell values are `real`. Only storage and read-back are modelled, so no rounding arises.
- The cell geometry (`Tetragon::new`, `Hexahedron::new`) is kept only as the corner points. The derived floating-point values `volume`, `face_*`, `nvec_*` and `inner_p` need `sqrt` and division on `f32`, and are not modelled. The volume assertions of the two cell tests are therefore not modelled either.
- `HashMap::with_capacity` and `Vec::with_capacity` are performance hints with no effect on the contents.
- The `MatOps` trait in common.rs is not implemented by any of the modelled types.
- Mesh tables hold references to cell objects. The model does not encode Rust's move of the cell into the table, so another holder of the same cell could still update its buffer.
