/**
  The counts `ShapeInfo::reinit` derives for a scalar element with tensor
  product structure from the space dimension, the element degree, the number
  of degrees of freedom per cell and the size of the 1d quadrature rule, and
  the face count of simplex elements.
 */
module ShapeCounts {
  import opened IndexArith
  import opened Wrappers

  datatype Counts = Counts(
    nDofs1d: nat,
    nQPoints: nat,
    nQPointsFace: nat,
    dofsPerComponentOnCell: nat,
    dofsPerComponentOnFace: nat)

  function Min(a: nat, b: nat): nat
  {
    if a <= b then a else b
  }

  /** `dofs_per_component_on_face` of a tensor product element: the nodes of
      one face, `(degree + 1)^(dim - 1)`, and 1 on the point faces of 1d. */
  function FaceDofs(dim: nat, degree: nat): nat
  {
    if dim > 1 then Pow(degree + 1, dim - 1) else 1
  }

  /** The counts set by `reinit`, or `None` when it returns before setting
      them because the element has no degrees of freedom or the quadrature
      rule is empty. */
  function TensorCounts(dim: nat, degree: nat, nDofsPerCell: nat, nQPoints1d: nat): Option<Counts>
    requires 1 <= dim <= 3
  {
    if nDofsPerCell == 0 || nQPoints1d == 0 then None
    else
      Some(Counts(
        Min(nDofsPerCell, degree + 1),
        Pow(nQPoints1d, dim),
        if dim > 1 then Pow(nQPoints1d, dim - 1) else 1,
        nDofsPerCell,
        FaceDofs(dim, degree)))
  }

  /** The counts are set exactly when there are degrees of freedom and
      quadrature points, and then the 1d dof count is the smaller of the
      cell's dof count and `degree + 1`. */
  lemma CountsDefined(dim: nat, degree: nat, nDofsPerCell: nat, nQPoints1d: nat)
    requires 1 <= dim <= 3
    ensures TensorCounts(dim, degree, nDofsPerCell, nQPoints1d).Some? <==> nDofsPerCell > 0 && nQPoints1d > 0
    ensures TensorCounts(dim, degree, nDofsPerCell, nQPoints1d).Some? ==>
      var c := TensorCounts(dim, degree, nDofsPerCell, nQPoints1d).value;
      && c.nDofs1d <= degree + 1 && c.nDofs1d <= nDofsPerCell
      && (c.nDofs1d == degree + 1 || c.nDofs1d == nDofsPerCell)
      && c.dofsPerComponentOnCell == nDofsPerCell
  {
  }

  /** A cell is a face times a line: the quadrature points of a cell are
      those of a face times the 1d points, the nodes of a cell are those of
      a face times `degree + 1`, and all counts are positive. */
  lemma FaceTimesLine(dim: nat, degree: nat, nDofsPerCell: nat, nQPoints1d: nat)
    requires 1 <= dim <= 3
    requires TensorCounts(dim, degree, nDofsPerCell, nQPoints1d).Some?
    ensures var c := TensorCounts(dim, degree, nDofsPerCell, nQPoints1d).value;
      && c.nQPointsFace * nQPoints1d == c.nQPoints
      && c.dofsPerComponentOnFace * (degree + 1) == Pow(degree + 1, dim)
      && c.nQPointsFace > 0 && c.dofsPerComponentOnFace > 0
  {
    PowPositive(nQPoints1d, dim - 1);
    PowPositive(degree + 1, dim - 1);
  }

  /** For a full tensor product element, with `(degree + 1)^dim` degrees of
      freedom, the 1d count is `degree + 1` and the cell and face counts are
      its powers. */
  lemma FullTensorElement(dim: nat, degree: nat, nQPoints1d: nat)
    requires 1 <= dim <= 3 && nQPoints1d > 0
    ensures TensorCounts(dim, degree, Pow(degree + 1, dim), nQPoints1d).Some?
    ensures var c := TensorCounts(dim, degree, Pow(degree + 1, dim), nQPoints1d).value;
      && c.nDofs1d == degree + 1
      && c.dofsPerComponentOnCell == Pow(c.nDofs1d, dim)
      && c.dofsPerComponentOnFace == Pow(c.nDofs1d, dim - 1)
  {
    PowMonotone(degree + 1, 1, dim);
    PowPositive(degree + 1, dim);
  }

  /** `dofs_per_component_on_face` of a simplex element of degree `degree`:
      a line of `degree + 1` nodes in 2d, a triangle in 3d. */
  function SimplexFaceDofs(dim: nat, degree: nat): nat
    requires dim == 2 || dim == 3
  {
    if dim == 2 then degree + 1 else (degree + 1) * (degree + 2) / 2
  }

  /** Nodes of a degree `d` Lagrange triangle, counted row by row: rows of
      `1, 2, ..., d + 1` nodes. */
  function TriangleNodes(d: nat): nat
  {
    if d == 0 then 1 else TriangleNodes(d - 1) + d + 1
  }

  /** The 3d simplex face count is the number of nodes of a degree `d`
      triangle. */
  lemma {:induction false} SimplexFaceIsTriangle(d: nat)
    ensures SimplexFaceDofs(3, d) == TriangleNodes(d)
  {
    if d > 0 {
      SimplexFaceIsTriangle(d - 1);
      assert (d + 1) * (d + 2) == d * (d + 1) + 2 * (d + 1);
      assert (d + 1) * (d + 2) / 2 == d * (d + 1) / 2 + (d + 1) by {
        DivModUnique(2, d * (d + 1) / 2 + (d + 1), 0);
        assert d * (d + 1) % 2 == 0 by {
          EvenProduct(d);
        }
      }
    }
  }

  lemma {:induction false} EvenProduct(d: nat)
    ensures d * (d + 1) % 2 == 0
  {
    if d > 0 {
      EvenProduct(d - 1);
      assert d * (d + 1) == (d - 1) * d + 2 * d;
      DivModUnique(2, (d - 1) * d / 2 + d, 0);
    }
  }
}
