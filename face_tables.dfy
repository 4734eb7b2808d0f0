/**
  The face-to-cell index tables of a tensor product element of degree
  `degree` in `dim` dimensions. The `(degree + 1)^dim` nodes of the cell are
  numbered lexicographically, so node `x` has coordinate
  `Coordinate(x, degree, d)` in direction `d`. Face `f` lies in direction
  `f / 2`, at coordinate 0 when `f` is even and `degree` when `f` is odd.

  The nodal table lists, for every face, the cell nodes on that face in the
  face's own numbering. The Hermite table lists every such node followed by
  its neighbour one layer into the cell.
 */
module FaceTables {
  import opened IndexArith
  import opened ShapeCounts

  /** Coordinate of lexicographic node `x` in direction `d`. */
  function Coordinate(x: nat, degree: nat, d: nat): nat
  {
    PowPositive(degree + 1, d);
    (x / Pow(degree + 1, d)) % (degree + 1)
  }

  /** Distance between consecutive face nodes when the face numbering runs
      along a direction below `dim - 1`. */
  function Stride(dim: nat, degree: nat, direction: nat): nat
  {
    if direction < dim - 1 then degree + 1 else 1
  }

  /** Node `l` (in the numbering of face `f`) of the layer of cell nodes at
      coordinate `layer` in direction `f / 2`. On faces 2 and 3 in 3d the
      face numbering runs `z` before `x`, hence the swapped roles of
      `l % (degree + 1)` and `l / (degree + 1)`. */
  function LayerNode(dim: nat, degree: nat, f: nat, layer: nat, l: nat): nat
    requires 1 <= dim <= 3 && f < 2 * dim
  {
    var direction := f / 2;
    var offset := layer * Pow(degree + 1, direction);
    DivNat(degree + 1, l);
    if direction == 0 || direction == dim - 1 then offset + l * Stride(dim, degree, direction)
    else offset + (l % (degree + 1)) * FaceDofs(dim, degree) + l / (degree + 1)
  }

  /** The layer face `f` lies in. */
  function FaceLayer(degree: nat, f: nat): nat
  {
    (f % 2) * degree
  }

  /** The layer of the neighbours the Hermite table pairs with face `f`'s
      nodes: one step into the cell. */
  function InnerLayer(degree: nat, f: nat): nat
    requires degree >= 1
  {
    if f % 2 == 0 then 1 else degree - 1
  }

  // ------------------------------------------------------------ the tables

  /** `face_to_cell_index_nodal`: row `f` holds the nodes of face `f`. */
  method NodalFaceTable(dim: nat, degree: nat) returns (t: array2<nat>)
    requires 1 <= dim <= 3
    ensures fresh(t)
    ensures t.Length0 == 2 * dim && t.Length1 == FaceDofs(dim, degree)
    ensures forall f, l :: 0 <= f < 2 * dim && 0 <= l < FaceDofs(dim, degree) ==>
      t[f, l] == LayerNode(dim, degree, f, FaceLayer(degree, f), l)
  {
    var dofsOnFace := FaceDofs(dim, degree);
    t := new nat[2 * dim, dofsOnFace];
    for f := 0 to 2 * dim
      invariant forall f', l :: 0 <= f' < f && 0 <= l < dofsOnFace ==>
        t[f', l] == LayerNode(dim, degree, f', FaceLayer(degree, f'), l)
    {
      var direction := f / 2;
      var stride := if direction < dim - 1 then degree + 1 else 1;
      var shift := FaceShift(degree, direction);
      var offset := (f % 2) * degree * shift;
      assert offset == FaceLayer(degree, f) * Pow(degree + 1, direction);
      if direction == 0 || direction == dim - 1 {
        for i := 0 to dofsOnFace
          invariant forall f', l :: 0 <= f' < f && 0 <= l < dofsOnFace ==>
            t[f', l] == LayerNode(dim, degree, f', FaceLayer(degree, f'), l)
          invariant forall l :: 0 <= l < i ==> t[f, l] == LayerNode(dim, degree, f, FaceLayer(degree, f), l)
        {
          t[f, i] := offset + i * stride;
        }
      } else {
        SwappedFaceFill(t, dim, degree, f, offset);
      }
    }
  }

  /** Entry `m` of row `f` of the Hermite table: the face node `m / 2` when
      `m` is even, its inner neighbour when `m` is odd. */
  function HermiteEntry(dim: nat, degree: nat, f: nat, m: nat): nat
    requires 1 <= dim <= 3 && f < 2 * dim && degree >= 1
  {
    LayerNode(dim, degree, f, if m % 2 == 0 then FaceLayer(degree, f) else InnerLayer(degree, f), m / 2)
  }

  /** `face_to_cell_index_hermite`, built for Hermite-like elements, which
      have more than two nodes per direction. */
  method HermiteFaceTable(dim: nat, degree: nat) returns (t: array2<nat>)
    requires 1 <= dim <= 3 && degree >= 2
    ensures fresh(t)
    ensures t.Length0 == 2 * dim && t.Length1 == 2 * FaceDofs(dim, degree)
    ensures forall f, m :: 0 <= f < 2 * dim && 0 <= m < 2 * FaceDofs(dim, degree) ==>
      t[f, m] == HermiteEntry(dim, degree, f, m)
  {
    var dofsOnFace := FaceDofs(dim, degree);
    t := new nat[2 * dim, 2 * dofsOnFace];
    for f := 0 to 2 * dim
      invariant forall f', m :: 0 <= f' < f && 0 <= m < 2 * dofsOnFace ==> t[f', m] == HermiteEntry(dim, degree, f', m)
    {
      var direction := f / 2;
      var stride := if direction < dim - 1 then degree + 1 else 1;
      var shift: int := FaceShift(degree, direction);
      var offset: nat := (f % 2) * degree * shift;
      assert offset == FaceLayer(degree, f) * Pow(degree + 1, direction);
      if f % 2 == 1 {
        shift := -shift;
      }
      if direction == 0 || direction == dim - 1 {
        HermiteArithmeticFill(t, dim, degree, f, offset, stride, shift);
      } else {
        HermiteSwappedFill(t, dim, degree, f, offset, shift);
      }
    }
  }

  /** The neighbour one layer in is `(degree + 1)^(f / 2)` above the face
      node on an even face and as much below it on an odd face. */
  lemma HermitePair(dim: nat, degree: nat, f: nat, l: nat)
    requires 1 <= dim <= 3 && f < 2 * dim && degree >= 1
    ensures HermiteEntry(dim, degree, f, 2 * l) == LayerNode(dim, degree, f, FaceLayer(degree, f), l)
    ensures HermiteEntry(dim, degree, f, 2 * l + 1) ==
      LayerNode(dim, degree, f, FaceLayer(degree, f), l) + (if f % 2 == 0 then 1 else -1) * Pow(degree + 1, f / 2)
  {
    assert (2 * l) / 2 == l && (2 * l) % 2 == 0 && (2 * l + 1) / 2 == l && (2 * l + 1) % 2 == 1;
    var step := Pow(degree + 1, f / 2);
    var onFace := LayerNode(dim, degree, f, FaceLayer(degree, f), l);
    if f % 2 == 0 {
      LayerStep(dim, degree, f, 0, l);
      assert FaceLayer(degree, f) == 0 && InnerLayer(degree, f) == 1;
      assert HermiteEntry(dim, degree, f, 2 * l + 1) == onFace + step;
    } else {
      LayerStep(dim, degree, f, degree - 1, l);
      assert FaceLayer(degree, f) == degree && InnerLayer(degree, f) == degree - 1;
      assert HermiteEntry(dim, degree, f, 2 * l + 1) == onFace - step;
    }
  }

  /** The loop of the Hermite table on the faces in directions 0 and
      `dim - 1`. */
  method HermiteArithmeticFill(t: array2<nat>, dim: nat, degree: nat, f: nat, offset: nat, stride: nat, shift: int)
    requires 1 <= dim <= 3 && f < 2 * dim && (f / 2 == 0 || f / 2 == dim - 1) && degree >= 1
    requires t.Length0 == 2 * dim && t.Length1 == 2 * FaceDofs(dim, degree)
    requires offset == FaceLayer(degree, f) * Pow(degree + 1, f / 2) && stride == Stride(dim, degree, f / 2)
    requires shift == (if f % 2 == 0 then 1 else -1) * Pow(degree + 1, f / 2)
    modifies t
    ensures forall f', m :: 0 <= f' < t.Length0 && 0 <= m < t.Length1 && f' != f ==> t[f', m] == old(t[f', m])
    ensures forall m :: 0 <= m < t.Length1 ==> t[f, m] == HermiteEntry(dim, degree, f, m)
  {
    for i := 0 to FaceDofs(dim, degree)
      invariant forall f', m :: 0 <= f' < t.Length0 && 0 <= m < t.Length1 && f' != f ==> t[f', m] == old(t[f', m])
      invariant forall m :: 0 <= m < 2 * i ==> t[f, m] == HermiteEntry(dim, degree, f, m)
    {
      HermitePair(dim, degree, f, i);
      t[f, 2 * i] := offset + i * stride;
      t[f, 2 * i + 1] := offset + i * stride + shift;
      assert (2 * i) / 2 == i && (2 * i + 1) / 2 == i;
    }
  }

  /** The double loop of the Hermite table on faces 2 and 3 in 3d. */
  method HermiteSwappedFill(t: array2<nat>, dim: nat, degree: nat, f: nat, offset: nat, shift: int)
    requires dim == 3 && f / 2 == 1 && degree >= 1
    requires t.Length0 == 2 * dim && t.Length1 == 2 * FaceDofs(dim, degree)
    requires offset == FaceLayer(degree, f) * Pow(degree + 1, f / 2)
    requires shift == (if f % 2 == 0 then 1 else -1) * Pow(degree + 1, f / 2)
    modifies t
    ensures forall f', m :: 0 <= f' < t.Length0 && 0 <= m < t.Length1 && f' != f ==> t[f', m] == old(t[f', m])
    ensures forall m :: 0 <= m < t.Length1 ==> t[f, m] == HermiteEntry(dim, degree, f, m)
  {
    for j := 0 to degree + 1
      invariant forall f', m :: 0 <= f' < t.Length0 && 0 <= m < t.Length1 && f' != f ==> t[f', m] == old(t[f', m])
      invariant forall i, j' :: 0 <= i <= degree && 0 <= j' < j ==> HermiteFilled(t, dim, degree, f, SwappedPos(degree, i, j'))
    {
      forall i, j' | 0 <= i <= degree && 0 <= j' < j
        ensures SwappedPos(degree, i, j') < FaceDofs(dim, degree) && SwappedPos(degree, i, j') % (degree + 1) == j'
      {
        SwappedPosition(dim, degree, f, i, j');
      }
      HermiteSwappedColumn(t, dim, degree, f, offset, shift, j);
    }
    forall m | 0 <= m < t.Length1
      ensures t[f, m] == HermiteEntry(dim, degree, f, m)
    {
      var l, b := QuotRem(2, m);
      TwoDigitsSplit(2, m, FaceDofs(dim, degree));
      SwappedSplit(degree, l);
      assert HermiteFilled(t, dim, degree, f, SwappedPos(degree, l / (degree + 1), l % (degree + 1)));
    }
  }

  /** Both entries of face node `l` in row `f` of the Hermite table are set. */
  ghost predicate HermiteFilled(t: array2<nat>, dim: nat, degree: nat, f: nat, l: nat)
    requires 1 <= dim <= 3 && f < 2 * dim && degree >= 1
    reads t
  {
    && f < t.Length0 && 2 * l + 1 < t.Length1
    && t[f, 2 * l] == HermiteEntry(dim, degree, f, 2 * l)
    && t[f, 2 * l + 1] == HermiteEntry(dim, degree, f, 2 * l + 1)
  }

  /** The inner loop of `HermiteSwappedFill` for one `j`. */
  method HermiteSwappedColumn(t: array2<nat>, dim: nat, degree: nat, f: nat, offset: nat, shift: int, j: nat)
    requires dim == 3 && f / 2 == 1 && degree >= 1 && j <= degree
    requires t.Length0 == 2 * dim && t.Length1 == 2 * FaceDofs(dim, degree)
    requires offset == FaceLayer(degree, f) * Pow(degree + 1, f / 2)
    requires shift == (if f % 2 == 0 then 1 else -1) * Pow(degree + 1, f / 2)
    modifies t
    ensures forall f', m :: 0 <= f' < t.Length0 && 0 <= m < t.Length1 && (f' != f || (m / 2) % (degree + 1) != j) ==>
      t[f', m] == old(t[f', m])
    ensures forall i :: 0 <= i <= degree ==> HermiteFilled(t, dim, degree, f, SwappedPos(degree, i, j))
  {
    var dofsOnFace := FaceDofs(dim, degree);
    for i := 0 to degree + 1
      invariant forall f', m :: 0 <= f' < t.Length0 && 0 <= m < t.Length1 && (f' != f || (m / 2) % (degree + 1) != j) ==>
        t[f', m] == old(t[f', m])
      invariant forall i' :: 0 <= i' < i ==> HermiteFilled(t, dim, degree, f, SwappedPos(degree, i', j))
    {
      var ind := offset + j * dofsOnFace + i;
      var l := i * (degree + 1) + j;
      SwappedHermiteValues(dim, degree, f, offset, shift, i, j);
      forall i' | 0 <= i' < i
        ensures SwappedPos(degree, i', j) != l
      {
        SwappedPosition(dim, degree, f, i', j);
      }
      t[f, 2 * l] := ind;
      t[f, 2 * l + 1] := ind + shift;
    }
  }

  /** The two values `HermiteSwappedColumn` stores for `x` index `i` and `z`
      index `j`, at positions `2 * l` and `2 * l + 1` with
      `l == i * (degree + 1) + j`, are the Hermite entries there. */
  lemma SwappedHermiteValues(dim: nat, degree: nat, f: nat, offset: nat, shift: int, i: nat, j: nat)
    requires dim == 3 && f / 2 == 1 && degree >= 1 && i <= degree && j <= degree
    requires offset == FaceLayer(degree, f) * Pow(degree + 1, f / 2)
    requires shift == (if f % 2 == 0 then 1 else -1) * Pow(degree + 1, f / 2)
    ensures SwappedPos(degree, i, j) == i * (degree + 1) + j < FaceDofs(dim, degree)
    ensures (i * (degree + 1) + j) % (degree + 1) == j
    ensures (2 * (i * (degree + 1) + j)) / 2 == i * (degree + 1) + j
    ensures (2 * (i * (degree + 1) + j) + 1) / 2 == i * (degree + 1) + j
    ensures offset + j * FaceDofs(dim, degree) + i == HermiteEntry(dim, degree, f, 2 * (i * (degree + 1) + j))
    ensures offset + j * FaceDofs(dim, degree) + i + shift == HermiteEntry(dim, degree, f, 2 * (i * (degree + 1) + j) + 1)
  {
    var l := i * (degree + 1) + j;
    SwappedPosition(dim, degree, f, i, j);
    HermitePair(dim, degree, f, l);
  }

  /** `shift` as computed by the loop: `(degree + 1)^direction`. */
  method FaceShift(degree: nat, direction: nat) returns (shift: nat)
    ensures shift == Pow(degree + 1, direction)
  {
    shift := 1;
    for d := 0 to direction
      invariant shift == Pow(degree + 1, d)
    {
      shift := shift * (degree + 1);
    }
  }

  /** Position of the face node with `x`-index `i` and `z`-index `j` in the
      swapped numbering of faces 2 and 3 in 3d. */
  function SwappedPos(degree: nat, i: nat, j: nat): nat
  {
    i * (degree + 1) + j
  }

  /** The double loop filling row `f` of a table in the swapped (`z` before
      `x`) order of faces 2 and 3 in 3d: position `i * (degree + 1) + j`
      receives `offset + j * (degree + 1)^2 + i`. */
  method SwappedFaceFill(t: array2<nat>, dim: nat, degree: nat, f: nat, offset: nat)
    requires dim == 3 && f / 2 == 1
    requires t.Length0 == 2 * dim && t.Length1 == FaceDofs(dim, degree)
    requires offset == FaceLayer(degree, f) * Pow(degree + 1, f / 2)
    modifies t
    ensures forall f', l :: 0 <= f' < t.Length0 && 0 <= l < t.Length1 && f' != f ==> t[f', l] == old(t[f', l])
    ensures forall l :: 0 <= l < t.Length1 ==> t[f, l] == LayerNode(dim, degree, f, FaceLayer(degree, f), l)
  {
    for j := 0 to degree + 1
      invariant forall f', l :: 0 <= f' < t.Length0 && 0 <= l < t.Length1 && f' != f ==> t[f', l] == old(t[f', l])
      invariant forall i, j' :: 0 <= i <= degree && 0 <= j' < j ==>
        t[f, SwappedPos(degree, i, j')] == LayerNode(dim, degree, f, FaceLayer(degree, f), SwappedPos(degree, i, j'))
    {
      forall i, j' | 0 <= i <= degree && 0 <= j' < j
        ensures SwappedPos(degree, i, j') < t.Length1 && SwappedPos(degree, i, j') % (degree + 1) == j'
      {
        SwappedPosition(dim, degree, f, i, j');
      }
      SwappedColumnFill(t, dim, degree, f, offset, j);
    }
    forall l | 0 <= l < t.Length1
      ensures t[f, l] == LayerNode(dim, degree, f, FaceLayer(degree, f), l)
    {
      SwappedSplit(degree, l);
    }
  }

  /** The inner loop of `SwappedFaceFill` for one `j`. */
  method SwappedColumnFill(t: array2<nat>, dim: nat, degree: nat, f: nat, offset: nat, j: nat)
    requires dim == 3 && f / 2 == 1 && j <= degree
    requires t.Length0 == 2 * dim && t.Length1 == FaceDofs(dim, degree)
    requires offset == FaceLayer(degree, f) * Pow(degree + 1, f / 2)
    modifies t
    ensures forall f', l :: 0 <= f' < t.Length0 && 0 <= l < t.Length1 && (f' != f || l % (degree + 1) != j) ==>
      t[f', l] == old(t[f', l])
    ensures forall i :: 0 <= i <= degree ==>
      SwappedPos(degree, i, j) < t.Length1 &&
      t[f, SwappedPos(degree, i, j)] == LayerNode(dim, degree, f, FaceLayer(degree, f), SwappedPos(degree, i, j))
  {
    var dofsOnFace := FaceDofs(dim, degree);
    for i := 0 to degree + 1
      invariant forall f', l :: 0 <= f' < t.Length0 && 0 <= l < t.Length1 && (f' != f || l % (degree + 1) != j) ==>
        t[f', l] == old(t[f', l])
      invariant forall i' :: 0 <= i' < i ==>
        SwappedPos(degree, i', j) < t.Length1 &&
        t[f, SwappedPos(degree, i', j)] == LayerNode(dim, degree, f, FaceLayer(degree, f), SwappedPos(degree, i', j))
    {
      var ind := offset + j * dofsOnFace + i;
      var l := i * (degree + 1) + j;
      SwappedPosition(dim, degree, f, i, j);
      forall i' | 0 <= i' < i
        ensures SwappedPos(degree, i', j) != l
      {
        SwappedPosition(dim, degree, f, i', j);
      }
      t[f, l] := ind;
    }
  }

  /** Every position of a swapped face row is `SwappedPos` of its quotient
      and remainder by `degree + 1`, both at most `degree`. */
  lemma SwappedSplit(degree: nat, l: nat)
    requires l < FaceDofs(3, degree)
    ensures l / (degree + 1) <= degree && l % (degree + 1) <= degree
    ensures l == SwappedPos(degree, l / (degree + 1), l % (degree + 1))
  {
    PowSmall(degree + 1);
    if l / (degree + 1) > degree {
      MulMonotone(degree + 1, l / (degree + 1), degree + 1);
    }
  }

  /** Position `i * (degree + 1) + j` of a swapped face row lies in the row,
      splits back into `i` and `j`, and holds `offset + j * (degree + 1)^2 + i`. */
  lemma SwappedPosition(dim: nat, degree: nat, f: nat, i: nat, j: nat)
    requires dim == 3 && f / 2 == 1 && i <= degree && j <= degree
    ensures SwappedPos(degree, i, j) == i * (degree + 1) + j
    ensures i * (degree + 1) + j < FaceDofs(dim, degree)
    ensures (i * (degree + 1) + j) / (degree + 1) == i && (i * (degree + 1) + j) % (degree + 1) == j
    ensures LayerNode(dim, degree, f, FaceLayer(degree, f), i * (degree + 1) + j) ==
      FaceLayer(degree, f) * Pow(degree + 1, f / 2) + j * FaceDofs(dim, degree) + i
  {
    PowSmall(degree + 1);
    GridBound(degree + 1, i, j);
    DivModUnique(degree + 1, i, j);
  }

  // ------------------------------------------------------------- the layers

  lemma FaceDofsPow(dim: nat, degree: nat)
    requires dim >= 1
    ensures FaceDofs(dim, degree) == Pow(degree + 1, dim - 1)
    ensures Pow(degree + 1, dim) == (degree + 1) * FaceDofs(dim, degree)
  {
  }

  /** A layer node as a number with two digits. In direction 0 (with more
      directions above it) the layer is the low digit in base `degree + 1`
      and the face position the high one. */
  lemma LowLayerDigits(dim: nat, degree: nat, f: nat, layer: nat, l: nat)
    requires 1 <= dim <= 3 && f < 2 * dim && f / 2 == 0 && 0 < dim - 1
    ensures LayerNode(dim, degree, f, layer, l) == layer + l * (degree + 1)
  {
    assert Pow(degree + 1, f / 2) == 1;
  }

  /** In direction `dim - 1` the face position is the low digit, in base
      `FaceDofs`, and the layer the high one. */
  lemma HighLayerDigits(dim: nat, degree: nat, f: nat, layer: nat, l: nat)
    requires 1 <= dim <= 3 && f < 2 * dim && f / 2 == dim - 1
    ensures LayerNode(dim, degree, f, layer, l) == l + layer * FaceDofs(dim, degree)
  {
    FaceDofsPow(dim, degree);
  }

  /** On the swapped faces in 3d, the `x` index `l / (degree + 1)` is the low
      digit in base `degree + 1`, the layer the next and the `z` index
      `l % (degree + 1)` the highest. */
  lemma MiddleLayerDigits(dim: nat, degree: nat, f: nat, layer: nat, l: nat)
    requires 1 <= dim <= 3 && f < 2 * dim && 0 < f / 2 < dim - 1 && l < FaceDofs(dim, degree)
    ensures dim == 3 && l / (degree + 1) <= degree && l % (degree + 1) <= degree
    ensures LayerNode(dim, degree, f, layer, l) ==
      l / (degree + 1) + (layer + (l % (degree + 1)) * (degree + 1)) * (degree + 1)
  {
    var p := degree + 1;
    PowSmall(p);
    SwappedSplit(degree, l);
    assert (layer + (l % p) * p) * p == layer * p + (l % p) * (p * p);
  }

  /** Every node of a layer is a node of the cell. */
  lemma LayerNodeBound(dim: nat, degree: nat, f: nat, layer: nat, l: nat)
    requires 1 <= dim <= 3 && f < 2 * dim && layer <= degree && l < FaceDofs(dim, degree)
    ensures LayerNode(dim, degree, f, layer, l) < Pow(degree + 1, dim)
  {
    var d := f / 2;
    if d == 0 && d < dim - 1 {
      LowLayerBound(dim, degree, f, layer, l);
    } else if d == dim - 1 {
      HighLayerBound(dim, degree, f, layer, l);
    } else {
      MiddleLayerBound(dim, degree, f, layer, l);
    }
  }

  lemma LowLayerBound(dim: nat, degree: nat, f: nat, layer: nat, l: nat)
    requires 1 <= dim <= 3 && f < 2 * dim && f / 2 == 0 && 0 < dim - 1
    requires layer <= degree && l < FaceDofs(dim, degree)
    ensures LayerNode(dim, degree, f, layer, l) < Pow(degree + 1, dim)
  {
    FaceDofsPow(dim, degree);
    LowLayerDigits(dim, degree, f, layer, l);
    DigitsBound(degree + 1, layer, l, FaceDofs(dim, degree));
  }

  lemma HighLayerBound(dim: nat, degree: nat, f: nat, layer: nat, l: nat)
    requires 1 <= dim <= 3 && f < 2 * dim && f / 2 == dim - 1
    requires layer <= degree && l < FaceDofs(dim, degree)
    ensures LayerNode(dim, degree, f, layer, l) < Pow(degree + 1, dim)
  {
    FaceDofsPow(dim, degree);
    HighLayerDigits(dim, degree, f, layer, l);
    DigitsBound(FaceDofs(dim, degree), l, layer, degree + 1);
  }

  lemma MiddleLayerBound(dim: nat, degree: nat, f: nat, layer: nat, l: nat)
    requires 1 <= dim <= 3 && f < 2 * dim && 0 < f / 2 < dim - 1
    requires layer <= degree && l < FaceDofs(dim, degree)
    ensures LayerNode(dim, degree, f, layer, l) < Pow(degree + 1, dim)
  {
    var p := degree + 1;
    var a, c := QuotRem(p, l);
    MiddleLayerDigits(dim, degree, f, layer, l);
    PowSmall(p);
    DigitsBound(p, layer, c, p);
    DigitsBound(p, a, layer + c * p, p * p);
  }

  /** Every node of layer `layer` of face `f` has coordinate `layer` in the
      face's direction: the nodal table lists nodes on the face, the Hermite
      table their neighbours one layer in. */
  lemma LayerNodeCoordinate(dim: nat, degree: nat, f: nat, layer: nat, l: nat)
    requires 1 <= dim <= 3 && f < 2 * dim && layer <= degree && l < FaceDofs(dim, degree)
    ensures Coordinate(LayerNode(dim, degree, f, layer, l), degree, f / 2) == layer
  {
    var d := f / 2;
    if d == 0 && d < dim - 1 {
      LowLayerCoordinate(dim, degree, f, layer, l);
    } else if d == dim - 1 {
      HighLayerCoordinate(dim, degree, f, layer, l);
    } else {
      MiddleLayerCoordinate(dim, degree, f, layer, l);
    }
  }

  lemma LowLayerCoordinate(dim: nat, degree: nat, f: nat, layer: nat, l: nat)
    requires 1 <= dim <= 3 && f < 2 * dim && f / 2 == 0 && 0 < dim - 1 && layer <= degree
    ensures Coordinate(LayerNode(dim, degree, f, layer, l), degree, f / 2) == layer
  {
    assert Pow(degree + 1, 0) == 1;
    LowLayerDigits(dim, degree, f, layer, l);
    DivModUnique(degree + 1, l, layer);
  }

  lemma HighLayerCoordinate(dim: nat, degree: nat, f: nat, layer: nat, l: nat)
    requires 1 <= dim <= 3 && f < 2 * dim && f / 2 == dim - 1 && layer <= degree && l < FaceDofs(dim, degree)
    ensures Coordinate(LayerNode(dim, degree, f, layer, l), degree, f / 2) == layer
  {
    FaceDofsPow(dim, degree);
    HighLayerDigits(dim, degree, f, layer, l);
    DivModUnique(FaceDofs(dim, degree), layer, l);
    DivModUnique(degree + 1, 0, layer);
  }

  lemma MiddleLayerCoordinate(dim: nat, degree: nat, f: nat, layer: nat, l: nat)
    requires 1 <= dim <= 3 && f < 2 * dim && 0 < f / 2 < dim - 1 && layer <= degree && l < FaceDofs(dim, degree)
    ensures Coordinate(LayerNode(dim, degree, f, layer, l), degree, f / 2) == layer
  {
    var p := degree + 1;
    var x := LayerNode(dim, degree, f, layer, l);
    MiddleLayerDigits(dim, degree, f, layer, l);
    var low, high := l / p, layer + (l % p) * p;
    assert x == low + high * p;
    DivModUnique(p, high, low);
    DivModUnique(p, l % p, layer);
    assert Coordinate(x, degree, 1) == (x / p) % p by {
      PowSmall(p);
    }
  }

  /** Distinct positions of a face row hold distinct nodes. */
  lemma LayerNodeInjective(dim: nat, degree: nat, f: nat, layer: nat, l: nat, l': nat)
    requires 1 <= dim <= 3 && f < 2 * dim && layer <= degree
    requires l < FaceDofs(dim, degree) && l' < FaceDofs(dim, degree)
    requires LayerNode(dim, degree, f, layer, l) == LayerNode(dim, degree, f, layer, l')
    ensures l == l'
  {
    var p, d := degree + 1, f / 2;
    if d == 0 && d < dim - 1 {
      LowLayerDigits(dim, degree, f, layer, l);
      LowLayerDigits(dim, degree, f, layer, l');
      DivModUnique(p, l, layer);
      DivModUnique(p, l', layer);
    } else if d == dim - 1 {
      HighLayerDigits(dim, degree, f, layer, l);
      HighLayerDigits(dim, degree, f, layer, l');
    } else {
      MiddleLayerInjective(dim, degree, f, layer, l, l');
    }
  }

  lemma MiddleLayerInjective(dim: nat, degree: nat, f: nat, layer: nat, l: nat, l': nat)
    requires 1 <= dim <= 3 && f < 2 * dim && 0 < f / 2 < dim - 1 && layer <= degree
    requires l < FaceDofs(dim, degree) && l' < FaceDofs(dim, degree)
    requires LayerNode(dim, degree, f, layer, l) == LayerNode(dim, degree, f, layer, l')
    ensures l == l'
  {
    var p := degree + 1;
    var a, c := QuotRem(p, l);
    var a', c' := QuotRem(p, l');
    MiddleLayerDigits(dim, degree, f, layer, l);
    MiddleLayerDigits(dim, degree, f, layer, l');
    ThreeDigitsInjective(p, a, layer, c, a', c');
  }

  /** Every node of the cell with coordinate `layer` in the direction of
      face `f` appears in the face row: with `LayerNodeInjective`, the row is
      exactly the layer, each node once. */
  lemma LayerNodeOnto(dim: nat, degree: nat, f: nat, layer: nat, x: nat)
    requires 1 <= dim <= 3 && f < 2 * dim && layer <= degree
    requires x < Pow(degree + 1, dim) && Coordinate(x, degree, f / 2) == layer
    ensures exists l :: 0 <= l < FaceDofs(dim, degree) && LayerNode(dim, degree, f, layer, l) == x
  {
    var d := f / 2;
    if d == 0 && d < dim - 1 {
      var l := LowLayerOnto(dim, degree, f, layer, x);
    } else if d == dim - 1 {
      var l := HighLayerOnto(dim, degree, f, layer, x);
    } else {
      var l := MiddleLayerOnto(dim, degree, f, layer, x);
    }
  }

  lemma LowLayerOnto(dim: nat, degree: nat, f: nat, layer: nat, x: nat) returns (l: nat)
    requires 1 <= dim <= 3 && f < 2 * dim && f / 2 == 0 && 0 < dim - 1 && layer <= degree
    requires x < Pow(degree + 1, dim) && Coordinate(x, degree, f / 2) == layer
    ensures l < FaceDofs(dim, degree) && LayerNode(dim, degree, f, layer, l) == x
  {
    var p, faceDofs := degree + 1, FaceDofs(dim, degree);
    FaceDofsPow(dim, degree);
    assert Pow(p, 0) == 1;
    assert x % p == layer;
    TwoDigitsSplit(p, x, faceDofs);
    l := x / p;
    LowLayerDigits(dim, degree, f, layer, l);
  }

  lemma HighLayerOnto(dim: nat, degree: nat, f: nat, layer: nat, x: nat) returns (l: nat)
    requires 1 <= dim <= 3 && f < 2 * dim && f / 2 == dim - 1 && layer <= degree
    requires x < Pow(degree + 1, dim) && Coordinate(x, degree, f / 2) == layer
    ensures l < FaceDofs(dim, degree) && LayerNode(dim, degree, f, layer, l) == x
  {
    var p, faceDofs := degree + 1, FaceDofs(dim, degree);
    FaceDofsPow(dim, degree);
    TwoDigitsSplit(faceDofs, x, p);
    var q := x / faceDofs;
    DivModUnique(p, 0, q);
    assert q == layer;
    l := x % faceDofs;
    HighLayerDigits(dim, degree, f, layer, l);
  }

  lemma MiddleLayerOnto(dim: nat, degree: nat, f: nat, layer: nat, x: nat) returns (l: nat)
    requires 1 <= dim <= 3 && f < 2 * dim && 0 < f / 2 < dim - 1 && layer <= degree
    requires x < Pow(degree + 1, dim) && Coordinate(x, degree, f / 2) == layer
    ensures l < FaceDofs(dim, degree) && LayerNode(dim, degree, f, layer, l) == x
  {
    var p := degree + 1;
    PowSmall(p);
    var a, c := x % p, (x / p) / p;
    assert (x / p) % p == layer;
    ThirdDigitBound(p, x);
    l := SwappedPos(degree, a, c);
    SwappedPosition(dim, degree, f, a, c);
    MiddleLayerDigits(dim, degree, f, layer, l);
    ThreeDigitsSplit(p, x);
  }

  /** One layer further along the face direction is `(degree + 1)^(f / 2)`
      further in the cell numbering. */
  lemma LayerStep(dim: nat, degree: nat, f: nat, layer: nat, l: nat)
    requires 1 <= dim <= 3 && f < 2 * dim
    ensures LayerNode(dim, degree, f, layer + 1, l) == LayerNode(dim, degree, f, layer, l) + Pow(degree + 1, f / 2)
  {
  }

  /** Faces `2 d` and `2 d + 1` list their nodes in the same order, face
      `2 d + 1` shifted by `degree * (degree + 1)^d`. */
  lemma OppositeFaces(dim: nat, degree: nat, d: nat, l: nat)
    requires 1 <= dim <= 3 && d < dim
    ensures LayerNode(dim, degree, 2 * d + 1, FaceLayer(degree, 2 * d + 1), l) ==
      LayerNode(dim, degree, 2 * d, FaceLayer(degree, 2 * d), l) + degree * Pow(degree + 1, d)
  {
  }

  /** In directions 0 and `dim - 1` a face row is the arithmetic sequence
      `offset + l * stride`. */
  lemma ArithmeticFaces(dim: nat, degree: nat, f: nat, l: nat)
    requires 1 <= dim <= 3 && f < 2 * dim && (f / 2 == 0 || f / 2 == dim - 1)
    ensures LayerNode(dim, degree, f, FaceLayer(degree, f), l) ==
      LayerNode(dim, degree, f, FaceLayer(degree, f), 0) + l * Stride(dim, degree, f / 2)
  {
  }

  /** Row `f` of the nodal table lists exactly the cell nodes on face `f`,
      each once: every entry is a cell node with coordinate `FaceLayer` in
      direction `f / 2`, distinct positions hold distinct nodes, and every
      such node is listed. */
  lemma NodalRowIsFace(dim: nat, degree: nat, f: nat)
    requires 1 <= dim <= 3 && f < 2 * dim
    ensures forall l :: 0 <= l < FaceDofs(dim, degree) ==>
      && LayerNode(dim, degree, f, FaceLayer(degree, f), l) < Pow(degree + 1, dim)
      && Coordinate(LayerNode(dim, degree, f, FaceLayer(degree, f), l), degree, f / 2) == FaceLayer(degree, f)
    ensures forall l, l' ::
      (0 <= l < FaceDofs(dim, degree) && 0 <= l' < FaceDofs(dim, degree) &&
       LayerNode(dim, degree, f, FaceLayer(degree, f), l) == LayerNode(dim, degree, f, FaceLayer(degree, f), l')) ==> l == l'
    ensures forall x :: 0 <= x < Pow(degree + 1, dim) && Coordinate(x, degree, f / 2) == FaceLayer(degree, f) ==>
      exists l :: 0 <= l < FaceDofs(dim, degree) && LayerNode(dim, degree, f, FaceLayer(degree, f), l) == x
  {
    var layer := FaceLayer(degree, f);
    assert layer <= degree;
    forall l | 0 <= l < FaceDofs(dim, degree)
      ensures LayerNode(dim, degree, f, layer, l) < Pow(degree + 1, dim)
      ensures Coordinate(LayerNode(dim, degree, f, layer, l), degree, f / 2) == layer
    {
      LayerNodeBound(dim, degree, f, layer, l);
      LayerNodeCoordinate(dim, degree, f, layer, l);
    }
    forall l, l' | 0 <= l < FaceDofs(dim, degree) && 0 <= l' < FaceDofs(dim, degree) &&
      LayerNode(dim, degree, f, layer, l) == LayerNode(dim, degree, f, layer, l')
      ensures l == l'
    {
      LayerNodeInjective(dim, degree, f, layer, l, l');
    }
    forall x | 0 <= x < Pow(degree + 1, dim) && Coordinate(x, degree, f / 2) == layer
      ensures exists l :: 0 <= l < FaceDofs(dim, degree) && LayerNode(dim, degree, f, layer, l) == x
    {
      LayerNodeOnto(dim, degree, f, layer, x);
    }
  }

  /** Every entry of the Hermite table is a cell node; even entries lie on
      the face, odd ones in the next layer into the cell. */
  lemma HermiteEntryNode(dim: nat, degree: nat, f: nat, m: nat)
    requires 1 <= dim <= 3 && f < 2 * dim && degree >= 1 && m < 2 * FaceDofs(dim, degree)
    ensures HermiteEntry(dim, degree, f, m) < Pow(degree + 1, dim)
    ensures Coordinate(HermiteEntry(dim, degree, f, m), degree, f / 2) ==
      if m % 2 == 0 then FaceLayer(degree, f) else InnerLayer(degree, f)
  {
    var layer := if m % 2 == 0 then FaceLayer(degree, f) else InnerLayer(degree, f);
    LayerNodeBound(dim, degree, f, layer, m / 2);
    LayerNodeCoordinate(dim, degree, f, layer, m / 2);
  }
}
