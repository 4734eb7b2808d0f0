/**
  The integer part of `ShapeInfo::reinit` for Raviart-Thomas elements: the
  counts it sets, and the two 1d numberings `lex_normal` and `lex_tangent`
  it evaluates the shape functions with, in the direction normal to a face
  and tangential to it.
 */
module RaviartThomas {
  import opened IndexArith
  import opened Renumbering

  datatype RaviartThomasCounts = RaviartThomasCounts(
    nQPoints: nat,
    nQPointsFace: nat,
    dofsPerComponentOnCell: nat,
    dofsPerComponentOnFace: nat,
    dofsPerFaceNormal: nat)

  /** The counts of a Raviart-Thomas element of degree `degree` in `dim`
      dimensions with `nComponents` components, `nDofsPerCell` degrees of
      freedom per cell and `nDofsPerFace` per face, for a 1d quadrature rule
      of `nQPoints1d` points. The cell's degrees of freedom are shared
      evenly (rounding down) among the components; a component's tangential
      face count adds `degree^(dim - 2)` to the face count. */
  function Counts(dim: nat, degree: nat, nComponents: nat, nDofsPerCell: nat, nDofsPerFace: nat, nQPoints1d: nat)
    : RaviartThomasCounts
    requires dim >= 2 && nComponents >= 1
  {
    RaviartThomasCounts(
      Pow(nQPoints1d, dim),
      Pow(nQPoints1d, dim - 1),
      nDofsPerCell / nComponents,
      nDofsPerFace + Pow(degree, dim - 2),
      nDofsPerFace)
  }

  /** What the counts mean: the cell's points are the face's points times a
      line of points; every component gets the largest equal share of the
      cell's degrees of freedom; and when a face carries `degree^(dim - 1)`
      normal degrees of freedom, a component has `(degree + 1)` times
      `degree^(dim - 2)` of them along a face. */
  lemma CountsMeaning(dim: nat, degree: nat, nComponents: nat, nDofsPerCell: nat, nDofsPerFace: nat, nQPoints1d: nat)
    requires dim >= 2 && nComponents >= 1
    ensures var c := Counts(dim, degree, nComponents, nDofsPerCell, nDofsPerFace, nQPoints1d);
      && c.nQPointsFace * nQPoints1d == c.nQPoints
      && c.dofsPerComponentOnCell * nComponents <= nDofsPerCell < (c.dofsPerComponentOnCell + 1) * nComponents
      && c.dofsPerFaceNormal == nDofsPerFace
      && (nDofsPerFace == Pow(degree, dim - 1) ==> c.dofsPerComponentOnFace == (degree + 1) * Pow(degree, dim - 2))
  {
    var c := Counts(dim, degree, nComponents, nDofsPerCell, nDofsPerFace, nQPoints1d);
    PowAdd1(nQPoints1d, dim - 1);
    PowAdd1(degree, dim - 2);
    DivModSplit(nComponents, nDofsPerCell);
    var q := nDofsPerCell / nComponents;
    assert (q + 1) * nComponents == q * nComponents + nComponents;
  }

  /** `lex_normal` as the source describes it: the degree of freedom on the
      first face of the direction (index 0), the `degree - 1` interior
      degrees of freedom, numbered consecutively after the `2 * dim` faces'
      ones, and the degree of freedom on the second face (index
      `dofsPerFaceNormal`). */
  predicate NormalNumbering(s: seq<nat>, dim: nat, degree: nat, dofsPerFaceNormal: nat)
    requires degree >= 1
  {
    && |s| == degree + 1
    && s[0] == 0
    && (forall k :: 1 <= k < degree ==> s[k] == dofsPerFaceNormal * 2 * dim + (k - 1))
    && s[degree] == dofsPerFaceNormal
  }

  /** The construction of `lex_normal` and `lex_tangent` by `push_back`.
      A Raviart-Thomas element has degree at least 1. */
  method LexNumberings(dim: nat, degree: nat, dofsPerFaceNormal: nat) returns (lexNormal: seq<nat>, lexTangent: seq<nat>)
    requires degree >= 1
    ensures |lexTangent| == degree && forall i :: 0 <= i < degree ==> lexTangent[i] == i
    ensures NormalNumbering(lexNormal, dim, degree, dofsPerFaceNormal)
  {
    lexTangent := [];
    for i := 0 to degree
      invariant |lexTangent| == i && forall k :: 0 <= k < i ==> lexTangent[k] == k
    {
      lexTangent := lexTangent + [i];
    }

    var interior := dofsPerFaceNormal * 2 * dim;
    lexNormal := [0];
    var i := interior;
    while i < interior + degree - 1
      invariant interior <= i <= interior + degree - 1
      invariant |lexNormal| == 1 + (i - interior) && lexNormal[0] == 0
      invariant forall k :: 1 <= k < |lexNormal| ==> lexNormal[k] == interior + (k - 1)
    {
      lexNormal := lexNormal + [i];
      i := i + 1;
    }
    lexNormal := lexNormal + [dofsPerFaceNormal];
  }

  /** With at least one degree of freedom per face in a space of dimension
      at least 1, `lex_normal` picks distinct degrees of freedom, all below
      the number of face degrees of freedom plus the interior ones. */
  lemma {:induction false} NormalNumberingDistinct(s: seq<nat>, dim: nat, degree: nat, dofsPerFaceNormal: nat)
    requires degree >= 1 && dim >= 1 && dofsPerFaceNormal >= 1
    requires NormalNumbering(s, dim, degree, dofsPerFaceNormal)
    ensures Injective(s)
    ensures forall k :: 0 <= k < |s| ==> s[k] < dofsPerFaceNormal * 2 * dim + degree - 1
  {
    var interior := dofsPerFaceNormal * 2 * dim;
    MulMonotone(1, 2 * dim, dofsPerFaceNormal);
    assert dofsPerFaceNormal < interior;
    forall a, b | 0 <= a < b < |s|
      ensures s[a] != s[b]
    {
      if a == 0 {
        assert s[b] >= dofsPerFaceNormal;
      } else {
        assert s[a] >= interior && b < degree ==> s[b] > s[a];
      }
    }
  }
}
