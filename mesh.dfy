/** Structured-mesh containers: a cell holds its id, the ids of its
    neighbours, the corner points of its shape and a fixed-length buffer of
    `dim` values updated in place; a mesh is a table from id to cell plus a
    counter of insertions. Values are `f32` in the Rust crate and `real` here:
    they are only stored and read back. */
module Mesh {
  import opened Common

  datatype Point2D = Point2D(x: real, y: real)
  datatype Point3D = Point3D(x: real, y: real, z: real)

  /** The geometry of a quadrilateral cell, kept as its corner points. */
  datatype Tetragon = Tetragon(p1: Point2D, p2: Point2D, p3: Point2D, p4: Point2D)

  /** The geometry of a hexahedral cell, kept as its corner points. */
  datatype Hexahedron = Hexahedron(p1: Point3D, p2: Point3D, p3: Point3D, p4: Point3D,
                                   p5: Point3D, p6: Point3D, p7: Point3D, p8: Point3D)

  /** Inserting a key grows a map by one exactly when the key is new. */
  lemma {:induction false} InsertCard<K, V>(m: map<K, V>, k: K, v: V)
    ensures |m[k := v]| == if k in m then |m| else |m| + 1
  {
    if k in m {
      assert m[k := v].Keys == m.Keys;
    } else {
      assert m[k := v].Keys == m.Keys + {k};
    }
  }

  class TetragonCell {
    const id: nat
    const nnId: Option<nat>
    const nsId: Option<nat>
    const nwId: Option<nat>
    const neId: Option<nat>
    const dim: nat
    const dimValues: array<real>
    const geometry: Tetragon

    /** The value buffer always has `dim` slots. */
    ghost predicate Valid()
      reads this
    {
      dimValues.Length == dim
    }

    /** `new(dim, id, ne, nw, nn, ns, p1, p2, p3, p4)`: the neighbour ids are
        taken in the order `ne, nw, nn, ns`, which differs from the field
        order, and each lands in its own field; the buffer is `dim` zeros. */
    constructor (dim: nat, id: nat, neId: Option<nat>, nwId: Option<nat>,
                 nnId: Option<nat>, nsId: Option<nat>,
                 p1: Point2D, p2: Point2D, p3: Point2D, p4: Point2D)
      ensures Valid() && fresh(dimValues)
      ensures Dim() == dim && Id() == id
      ensures Ne() == neId && Nw() == nwId && Nn() == nnId && Ns() == nsId
      ensures forall at :: 0 <= at < dim ==> GetVal(at) == 0.0
      ensures geometry == Tetragon(p1, p2, p3, p4)
    {
      this.id, this.nnId, this.nsId, this.nwId, this.neId := id, nnId, nsId, nwId, neId;
      this.dim := dim;
      dimValues := new real[dim](_ => 0.0);
      geometry := Tetragon(p1, p2, p3, p4);
    }

    /** `dim()`: the number of slots of the value buffer. */
    function Dim(): (d: nat)
      reads this
      ensures Valid() ==> d == dimValues.Length
    {
      dim
    }

    /** `id()`: the id given at construction. */
    function Id(): nat
      reads this
    {
      id
    }

    /** `nn()`: the neighbour given as `nn_id`. */
    function Nn(): Option<nat>
      reads this
    {
      nnId
    }

    /** `ns()`: the neighbour given as `ns_id`. */
    function Ns(): Option<nat>
      reads this
    {
      nsId
    }

    /** `nw()`: the neighbour given as `nw_id`. */
    function Nw(): Option<nat>
      reads this
    {
      nwId
    }

    /** `ne()`: the neighbour given as `ne_id`. */
    function Ne(): Option<nat>
      reads this
    {
      neId
    }

    /** `get_val(at)`: indexing `dim_values` panics past its end, so only
        the `dim` slots can be read; the result is one of their values. */
    function GetVal(at: nat): (v: real)
      reads this, dimValues
      requires at < dimValues.Length
      ensures Valid() ==> at < dim
      ensures v in multiset(dimValues[..])
    {
      dimValues[at]
    }

    /** `update_val(v, at)`: slot `at` becomes `v`, every other slot keeps
        its value. */
    method UpdateVal(v: real, at: nat)
      requires Valid() && at < dim
      modifies dimValues
      ensures Valid()
      ensures dimValues[..] == old(dimValues[..])[at := v]
      ensures GetVal(at) == v
      ensures forall k :: 0 <= k < dim && k != at ==> GetVal(k) == old(GetVal(k))
    {
      dimValues[at] := v;
    }
  }

  class HexahedronCell {
    const id: nat
    const ntId: Option<nat>
    const nbId: Option<nat>
    const nnId: Option<nat>
    const nsId: Option<nat>
    const nwId: Option<nat>
    const neId: Option<nat>
    const dim: nat
    const dimValues: array<real>
    const geometry: Hexahedron

    /** The value buffer always has `dim` slots. */
    ghost predicate Valid()
      reads this
    {
      dimValues.Length == dim
    }

    /** `new(dim, id, ne, nw, nn, ns, nt, nb, p1, ..., p8)`: the neighbour
        ids are taken in the order `ne, nw, nn, ns, nt, nb`, and each lands
        in its own field; the buffer is `dim` zeros. */
    constructor (dim: nat, id: nat, neId: Option<nat>, nwId: Option<nat>,
                 nnId: Option<nat>, nsId: Option<nat>, ntId: Option<nat>, nbId: Option<nat>,
                 p1: Point3D, p2: Point3D, p3: Point3D, p4: Point3D,
                 p5: Point3D, p6: Point3D, p7: Point3D, p8: Point3D)
      ensures Valid() && fresh(dimValues)
      ensures Dim() == dim && Id() == id
      ensures Ne() == neId && Nw() == nwId && Nn() == nnId && Ns() == nsId && Nt() == ntId && Nb() == nbId
      ensures forall at :: 0 <= at < dim ==> GetVal(at) == 0.0
      ensures geometry == Hexahedron(p1, p2, p3, p4, p5, p6, p7, p8)
    {
      this.id, this.nnId, this.nsId, this.nwId, this.neId := id, nnId, nsId, nwId, neId;
      this.ntId, this.nbId := ntId, nbId;
      this.dim := dim;
      dimValues := new real[dim](_ => 0.0);
      geometry := Hexahedron(p1, p2, p3, p4, p5, p6, p7, p8);
    }

    /** `dim()`: the number of slots of the value buffer. */
    function Dim(): (d: nat)
      reads this
      ensures Valid() ==> d == dimValues.Length
    {
      dim
    }

    /** `id()`: the id given at construction. */
    function Id(): nat
      reads this
    {
      id
    }

    /** `nn()`: the neighbour given as `nn_id`. */
    function Nn(): Option<nat>
      reads this
    {
      nnId
    }

    /** `ns()`: the neighbour given as `ns_id`. */
    function Ns(): Option<nat>
      reads this
    {
      nsId
    }

    /** `nw()`: the neighbour given as `nw_id`. */
    function Nw(): Option<nat>
      reads this
    {
      nwId
    }

    /** `ne()`: the neighbour given as `ne_id`. */
    function Ne(): Option<nat>
      reads this
    {
      neId
    }

    /** `nt()`: the neighbour given as `nt_id`. */
    function Nt(): Option<nat>
      reads this
    {
      ntId
    }

    /** `nb()`: the neighbour given as `nb_id`. */
    function Nb(): Option<nat>
      reads this
    {
      nbId
    }

    /** `get_val(at)`: indexing `dim_values` panics past its end, so only
        the `dim` slots can be read; the result is one of their values. */
    function GetVal(at: nat): (v: real)
      reads this, dimValues
      requires at < dimValues.Length
      ensures Valid() ==> at < dim
      ensures v in multiset(dimValues[..])
    {
      dimValues[at]
    }

    /** `update_val(v, at)`: slot `at` becomes `v`, every other slot keeps
        its value. */
    method UpdateVal(v: real, at: nat)
      requires Valid() && at < dim
      modifies dimValues
      ensures Valid()
      ensures dimValues[..] == old(dimValues[..])[at := v]
      ensures GetVal(at) == v
      ensures forall k :: 0 <= k < dim && k != at ==> GetVal(k) == old(GetVal(k))
    {
      dimValues[at] := v;
    }
  }

  class TetragonMesh {
    var size: nat
    var cells: map<nat, TetragonCell>

    /** `size` counts `add` calls, so it is never below the number of
        distinct ids. */
    ghost predicate Valid()
      reads this
    {
      |cells| <= size
    }

    /** `new()`. */
    constructor ()
      ensures Valid() && size == 0 && cells == map[]
    {
      size, cells := 0, map[];
    }

    /** `add(id, cell)`: insert or replace the cell under `id` and count
        the call, even when `id` was already present. */
    method Add(id: nat, cell: TetragonCell)
      requires Valid()
      modifies this
      ensures Valid()
      ensures cells == old(cells)[id := cell]
      ensures size == old(size) + 1
    {
      InsertCard(cells, id, cell);
      cells := cells[id := cell];
      size := size + 1;
    }
  }

  class HexahedronMesh {
    var size: nat
    var cells: map<nat, HexahedronCell>

    /** `size` counts `add` calls, so it is never below the number of
        distinct ids. */
    ghost predicate Valid()
      reads this
    {
      |cells| <= size
    }

    /** `new()`. */
    constructor ()
      ensures Valid() && size == 0 && cells == map[]
    {
      size, cells := 0, map[];
    }

    /** `add(id, cell)`: insert or replace the cell under `id` and count
        the call, even when `id` was already present. */
    method Add(id: nat, cell: HexahedronCell)
      requires Valid()
      modifies this
      ensures Valid()
      ensures cells == old(cells)[id := cell]
      ensures size == old(size) + 1
    {
      InsertCard(cells, id, cell);
      cells := cells[id := cell];
      size := size + 1;
    }
  }

  /** The scenario of `tetragon_cell_test`, without its volume check: a
      three-slot cell reads back the value written to slot 2. */
  method TetragonCellScenario() returns (dim: nat, val: real)
    ensures dim == 3 && val == 0.5
  {
    var cell := new TetragonCell(3, 0, None, None, None, None,
                                 Point2D(0.0, 0.0), Point2D(2.0, 0.0), Point2D(2.0, 2.0), Point2D(0.0, 2.0));
    cell.UpdateVal(0.5, 2);
    dim, val := cell.Dim(), cell.GetVal(2);
  }

  /** The scenario of `hexahedron_cell_test`, without its volume check: a
      four-slot cell reads back the value written to slot 2. */
  method HexahedronCellScenario() returns (dim: nat, val: real)
    ensures dim == 4 && val == 0.5
  {
    var cell := new HexahedronCell(4, 0, None, None, None, None, None, None,
                                   Point3D(2.0, 0.0, 0.0), Point3D(2.0, 2.0, 0.0),
                                   Point3D(0.0, 2.0, 0.0), Point3D(0.0, 0.0, 0.0),
                                   Point3D(2.0, 0.0, 2.0), Point3D(2.0, 2.0, 2.0),
                                   Point3D(0.0, 2.0, 2.0), Point3D(0.0, 0.0, 2.0));
    cell.UpdateVal(0.5, 2);
    dim, val := cell.Dim(), cell.GetVal(2);
  }

  /** Adding two cells under one id leaves one cell in the table but counts
      two insertions. */
  method ReAddScenario(first: TetragonCell, second: TetragonCell) returns (size: nat, distinct: nat)
    ensures size == 2 && distinct == 1
  {
    var mesh := new TetragonMesh();
    mesh.Add(7, first);
    mesh.Add(7, second);
    size, distinct := mesh.size, |mesh.cells|;
  }
}
