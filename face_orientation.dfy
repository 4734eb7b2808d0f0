/**
  The face orientation table of the matrix-free shape information: for an
  `n x n` grid of points (or degrees of freedom) on a quadrilateral face,
  numbered lexicographically as `j * n + k`, row `o` of the table says where
  entry `i` goes under face orientation `o` (the eight combinations of the
  orientation, rotation and flip flags).
 */
module FaceOrientation {
  import opened IndexArith

  const NOrientations: nat := 8

  /** Where grid point `(j, k)` goes under orientation `o`: the grid point
      `(OrientRow, OrientCol)`, in lexicographic numbering. */
  function Orient(n: nat, o: nat, j: nat, k: nat): nat
    requires o < NOrientations && j < n && k < n
  {
    OrientRow(n, o, j, k) * n + OrientCol(n, o, j, k)
  }

  /** Entry `i` of row `o`: the grid point `i` is `(i / n, i % n)`. */
  function OrientAt(n: nat, o: nat, i: nat): nat
    requires o < NOrientations && i < n * n
  {
    assert i / n < n by {
      if i / n >= n {
        MulMonotone(n, i / n, n);
      }
    }
    Orient(n, o, i / n, i % n)
  }

  /** The orientation undoing orientation `o`: rows 2 and 6 (a rotation and
      its reverse) undo each other, every other row undoes itself. */
  function InverseOrientation(o: nat): (p: nat)
    requires o < NOrientations
    ensures p < NOrientations
  {
    if o == 2 then 6 else if o == 6 then 2 else o
  }

  /** `compute_orientation_table(n)`. */
  method ComputeOrientationTable(n: nat) returns (t: array2<nat>)
    ensures fresh(t)
    ensures t.Length0 == NOrientations && t.Length1 == n * n
    ensures forall o, i :: 0 <= o < NOrientations && 0 <= i < n * n ==> t[o, i] == OrientAt(n, o, i)
  {
    t := new nat[NOrientations, n * n];
    var i := 0;
    for j := 0 to n
      invariant i == j * n && i <= n * n
      invariant forall o, p :: 0 <= o < NOrientations && 0 <= p < i ==> t[o, p] == OrientAt(n, o, p)
    {
      MulMonotone(j + 1, n, n);
      for k := 0 to n
        invariant i == j * n + k && i <= n * n
        invariant forall o, p :: 0 <= o < NOrientations && 0 <= p < i ==> t[o, p] == OrientAt(n, o, p)
      {
        WriteEntry(t, n, j, k, i);
        i := i + 1;
      }
    }
  }

  /** The body of the double loop: column `i == j * n + k` of all eight
      rows. */
  method WriteEntry(t: array2<nat>, n: nat, j: nat, k: nat, i: nat)
    requires j < n && k < n && i == j * n + k
    requires t.Length0 == NOrientations && t.Length1 == n * n
    modifies t
    ensures forall o, p :: 0 <= o < NOrientations && 0 <= p < n * n && p != i ==> t[o, p] == old(t[o, p])
    ensures forall o :: 0 <= o < NOrientations ==> i < n * n && t[o, i] == OrientAt(n, o, i)
  {
    GridBound(n, j, k);
    DivModUnique(n, j, k);
    SourceFormulas(n, j, k);
    t[0, i] := i;
    t[1, i] := j + k * n;
    t[2, i] := j + (n - 1 - k) * n;
    t[3, i] := k + (n - 1 - j) * n;
    t[4, i] := (n - 1 - k) + (n - 1 - j) * n;
    t[5, i] := (n - 1 - j) + (n - 1 - k) * n;
    t[6, i] := (n - 1 - j) + k * n;
    t[7, i] := (n - 1 - k) + j * n;
    assert i / n == j && i % n == k;
  }

  /** The eight index expressions of the table, entry `j * n + k`, are the
      grid points of `Orient`. */
  lemma SourceFormulas(n: nat, j: nat, k: nat)
    requires j < n && k < n
    ensures j * n + k == Orient(n, 0, j, k)
    ensures j + k * n == Orient(n, 1, j, k)
    ensures j + (n - 1 - k) * n == Orient(n, 2, j, k)
    ensures k + (n - 1 - j) * n == Orient(n, 3, j, k)
    ensures (n - 1 - k) + (n - 1 - j) * n == Orient(n, 4, j, k)
    ensures (n - 1 - j) + (n - 1 - k) * n == Orient(n, 5, j, k)
    ensures (n - 1 - j) + k * n == Orient(n, 6, j, k)
    ensures (n - 1 - k) + j * n == Orient(n, 7, j, k)
  {
  }

  /** Entry `j * n + k` of row `o` is where `Orient` sends `(j, k)`. */
  lemma EntryAt(n: nat, o: nat, j: nat, k: nat)
    requires o < NOrientations && j < n && k < n
    ensures j * n + k < n * n && OrientAt(n, o, j * n + k) == Orient(n, o, j, k)
  {
    GridBound(n, j, k);
    DivModUnique(n, j, k);
  }

  /** Row 0 (standard orientation, no rotation, no flip) is the identity. */
  lemma IdentityRow(n: nat, i: nat)
    requires i < n * n
    ensures OrientAt(n, 0, i) == i
  {
  }

  /** Every orientation sends the grid point `(j, k)` to the grid point
      `(j', k')` with `j'` and `k'` given by its row, so the entry is the
      lexicographic index of a grid point. */
  lemma OrientGridPoint(n: nat, o: nat, j: nat, k: nat)
    requires o < NOrientations && j < n && k < n
    ensures Orient(n, o, j, k) < n * n
    ensures Orient(n, o, j, k) / n == OrientRow(n, o, j, k)
    ensures Orient(n, o, j, k) % n == OrientCol(n, o, j, k)
  {
    var r, c := OrientRow(n, o, j, k), OrientCol(n, o, j, k);
    assert Orient(n, o, j, k) == r * n + c;
    GridBound(n, r, c);
    DivModUnique(n, r, c);
  }

  /** Grid row of the point `(j, k)` is sent to under `o`. */
  function OrientRow(n: nat, o: nat, j: nat, k: nat): (r: nat)
    requires o < NOrientations && j < n && k < n
    ensures r < n
  {
    if o == 0 then j
    else if o == 1 || o == 6 then k
    else if o == 2 || o == 5 then n - 1 - k
    else if o == 3 || o == 4 then n - 1 - j
    else j
  }

  /** Grid column of the point `(j, k)` is sent to under `o`. */
  function OrientCol(n: nat, o: nat, j: nat, k: nat): (c: nat)
    requires o < NOrientations && j < n && k < n
    ensures c < n
  {
    if o == 0 then k
    else if o == 1 || o == 2 then j
    else if o == 3 then k
    else if o == 4 || o == 7 then n - 1 - k
    else n - 1 - j
  }

  /** Every entry of the table is an index of the `n x n` grid. */
  lemma EntryBound(n: nat, o: nat, i: nat)
    requires o < NOrientations && i < n * n
    ensures OrientAt(n, o, i) < n * n
  {
    OrientGridPoint(n, o, i / n, i % n);
  }

  /** Applying orientation `o` and then its inverse gives back every index. */
  lemma InverseUndoes(n: nat, o: nat, i: nat)
    requires o < NOrientations && i < n * n
    ensures OrientAt(n, o, i) < n * n
    ensures OrientAt(n, InverseOrientation(o), OrientAt(n, o, i)) == i
  {
    assert n > 0;
    TwoDigitsSplit(n, i, n);
    var j, k := i / n, i % n;
    assert OrientAt(n, o, i) == Orient(n, o, j, k);
    EntryAt(n, InverseOrientation(o), OrientRow(n, o, j, k), OrientCol(n, o, j, k));
    GridPointInverse(n, o, j, k);
  }

  /** On grid points, the inverse orientation sends `(OrientRow, OrientCol)`
      back to `(j, k)`. */
  lemma GridPointInverse(n: nat, o: nat, j: nat, k: nat)
    requires o < NOrientations && j < n && k < n
    ensures OrientRow(n, InverseOrientation(o), OrientRow(n, o, j, k), OrientCol(n, o, j, k)) == j
    ensures OrientCol(n, InverseOrientation(o), OrientRow(n, o, j, k), OrientCol(n, o, j, k)) == k
  {
  }

  /** Every row of the table is a permutation of `0 .. n * n - 1`: it maps the
      grid into itself, distinct indices to distinct indices, and reaches
      every index. */
  lemma RowIsPermutation(n: nat, o: nat)
    requires o < NOrientations
    ensures forall i :: 0 <= i < n * n ==> OrientAt(n, o, i) < n * n
    ensures forall i, i' :: 0 <= i < n * n && 0 <= i' < n * n && OrientAt(n, o, i) == OrientAt(n, o, i') ==> i == i'
    ensures forall x :: 0 <= x < n * n ==>
      OrientAt(n, InverseOrientation(o), x) < n * n && OrientAt(n, o, OrientAt(n, InverseOrientation(o), x)) == x
  {
    var p := InverseOrientation(o);
    forall i | 0 <= i < n * n
      ensures OrientAt(n, o, i) < n * n && OrientAt(n, p, OrientAt(n, o, i)) == i
    {
      InverseUndoes(n, o, i);
    }
    forall x | 0 <= x < n * n
      ensures OrientAt(n, p, x) < n * n && OrientAt(n, o, OrientAt(n, p, x)) == x
    {
      InverseUndoes(n, p, x);
      assert InverseOrientation(p) == o;
    }
  }

  /** Row 1 (reversed orientation) transposes the grid, `(j, k)` to `(k, j)`,
      and applying it twice gives back every index. */
  lemma TransposeRow(n: nat)
    ensures forall j, k :: 0 <= j < n && 0 <= k < n ==> Orient(n, 1, j, k) == Orient(n, 0, k, j)
    ensures forall i :: 0 <= i < n * n ==> OrientAt(n, 1, i) < n * n && OrientAt(n, 1, OrientAt(n, 1, i)) == i
  {
    forall i | 0 <= i < n * n
      ensures OrientAt(n, 1, i) < n * n && OrientAt(n, 1, OrientAt(n, 1, i)) == i
    {
      InverseUndoes(n, 1, i);
    }
  }
}
