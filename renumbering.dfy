/**
  The lexicographic renumbering of `get_element_type_specific_information`:
  the scalar numbering of one base element (which entry of the element's
  own numbering sits at each lexicographic position), and the numbering of
  all components of that base element inside a vector-valued system.

  The system element is described by two inputs: the multiplicity of every
  base element, and `systemIndex[c][i]`, the system degree of freedom of
  local degree of freedom `i` of component `c`.
 */
module Renumbering {
  import opened IndexArith
  import opened Wrappers
  import opened BlockIndices

  /** `numbers::invalid_unsigned_int`. */
  const InvalidUnsignedInt: nat := 0xFFFF_FFFF

  /** The shape function evaluation kinds `reinit` distinguishes. */
  datatype ElementType =
    | TensorSymmetricCollocation
    | TensorSymmetricHermite
    | TensorSymmetric
    | TensorGeneral
    | TruncatedTensor
    | TensorSymmetricPlusDg0
    | TensorNone
    | TensorRaviartThomas
    | TensorSymmetricNoCollocation

  /** What the type dispatch of `get_element_type_specific_information`
      finds out about the base element. */
  datatype ElementKind =
    | SimplexLike                                  // simplex, wedge or pyramid
    | TensorPolynomial(numberingInverse: seq<nat>) // poly space numbering inverse
    | DiscontinuousP                               // FE_DGP
    | ContinuousPlusDg0(numberingInverse: seq<nat>) // FE_Q_DG0
    | OtherKind                                    // anything else

  predicate Injective(p: seq<nat>)
  {
    forall a, b :: 0 <= a < b < |p| ==> p[a] != p[b]
  }

  /** `p` lists `0 .. |p| - 1` in some order. */
  predicate IsPermutation(p: seq<nat>)
  {
    (forall i :: 0 <= i < |p| ==> p[i] < |p|) && Injective(p)
  }

  // ------------------------------------------------------------ pigeonhole

  lemma {:induction false} ImageSize(p: seq<nat>, k: nat)
    requires k <= |p| && Injective(p)
    ensures |set i | 0 <= i < k :: p[i]| == k
  {
    if k > 0 {
      ImageSize(p, k - 1);
      var before := set i | 0 <= i < k - 1 :: p[i];
      assert (set i | 0 <= i < k :: p[i]) == before + {p[k - 1]};
      assert p[k - 1] !in before;
    }
  }

  /** A permutation reaches every index: its image has as many elements as
      the image of the identity, and lies inside it. */
  lemma PermutationOnto(p: seq<nat>)
    requires IsPermutation(p)
    ensures forall v :: 0 <= v < |p| ==> v in p
  {
    var n := |p|;
    var id := Identity(n);
    var image := set i | 0 <= i < n :: p[i];
    var range := set i | 0 <= i < n :: id[i];
    ImageSize(p, n);
    ImageSize(id, n);
    forall x | x in image
      ensures x in range
    {
      var i :| 0 <= i < n && p[i] == x;
      assert id[x] == x;
    }
    assert |range - image| == |range| - |image| == 0;
    forall v | 0 <= v < n
      ensures v in p
    {
      assert id[v] == v;
      assert v in range;
      if v !in image {
        assert false;
      }
      var i :| 0 <= i < n && p[i] == v;
    }
  }

  // ------------------------------------------------------------ inversion

  /** `Utilities::invert_permutation`: the entry at `p[i]` becomes `i`. */
  method InvertPermutation(p: seq<nat>) returns (q: seq<nat>)
    requires IsPermutation(p)
    ensures |q| == |p| && IsPermutation(q)
    ensures forall i :: 0 <= i < |p| ==> q[p[i]] == i
    ensures forall v :: 0 <= v < |q| ==> p[q[v]] == v
  {
    q := seq(|p|, _ => InvalidUnsignedInt);
    for i := 0 to |p|
      invariant |q| == |p|
      invariant forall k :: 0 <= k < i ==> q[p[k]] == k
    {
      q := q[p[i] := i];
    }
    PermutationOnto(p);
    forall v | 0 <= v < |q|
      ensures q[v] < |p| && p[q[v]] == v
    {
      assert v in p;
      var i :| 0 <= i < |p| && p[i] == v;
    }
  }

  // ------------------------------------------------------ scalar numbering

  /** The identity numbering `0, 1, ..., n - 1`, filled by a loop. */
  method IdentityNumbering(n: nat) returns (s: seq<nat>)
    ensures |s| == n && forall i :: 0 <= i < n ==> s[i] == i
  {
    s := seq(n, _ => 0);
    for i := 0 to n
      invariant |s| == n && forall k :: 0 <= k < i ==> s[k] == k
    {
      s := s[i := i];
    }
  }

  lemma IdentityIsPermutation(s: seq<nat>)
    requires forall i :: 0 <= i < |s| ==> s[i] == i
    ensures IsPermutation(s)
  {
  }

  /** The scalar part of `get_element_type_specific_information`: the
      element type and scalar lexicographic numbering for each kind of base
      element with `nDofs` degrees of freedom, or `None` where the source
      throws (an unsupported element with degrees of freedom). */
  method ScalarNumbering(kind: ElementKind, nDofs: nat) returns (r: Option<(ElementType, seq<nat>)>)
    ensures kind.SimplexLike? ==> r == Some((TensorNone, Identity(nDofs)))
    ensures kind.TensorPolynomial? ==> r == Some((TensorGeneral, kind.numberingInverse))
    ensures kind.DiscontinuousP? ==> r == Some((TruncatedTensor, Identity(nDofs)))
    ensures kind.ContinuousPlusDg0? ==> r == Some((TensorSymmetricPlusDg0, kind.numberingInverse))
    ensures kind.OtherKind? ==> r == if nDofs == 0 then Some((TensorGeneral, [])) else None
  {
    match kind {
      case SimplexLike =>
        var s := IdentityNumbering(nDofs);
        assert s == Identity(nDofs);
        r := Some((TensorNone, s));
      case TensorPolynomial(inv) =>
        r := Some((TensorGeneral, inv));
      case DiscontinuousP =>
        var s := IdentityNumbering(nDofs);
        assert s == Identity(nDofs);
        r := Some((TruncatedTensor, s));
      case ContinuousPlusDg0(inv) =>
        r := Some((TensorSymmetricPlusDg0, inv));
      case OtherKind =>
        r := if nDofs == 0 then Some((TensorGeneral, [])) else None;
    }
  }

  /** The identity numbering of length `n`. */
  function Identity(n: nat): (s: seq<nat>)
    ensures |s| == n && IsPermutation(s)
  {
    seq(n, i => i)
  }

  // ------------------------------------------------- component numbering

  /** The system indices of the `multiplicity` components starting at
      component `first`: row `c` maps the local degrees of freedom of
      component `first + c` to system degrees of freedom. */
  function Components(systemIndex: seq<seq<nat>>, first: nat, multiplicity: nat): (table: seq<seq<nat>>)
    requires first + multiplicity <= |systemIndex|
    ensures |table| == multiplicity
    ensures forall c :: 0 <= c < multiplicity ==> table[c] == systemIndex[first + c]
  {
    systemIndex[first..first + multiplicity]
  }

  /** What the system element guarantees of the system indices of the
      components of one base element, each with `n` local degrees of
      freedom: every (component, local index) pair has a system index below
      `nSystemDofs`, and distinct pairs have distinct ones. */
  predicate ComponentTable(table: seq<seq<nat>>, n: nat, nSystemDofs: nat)
  {
    && TableShape(table, n, nSystemDofs)
    && (forall c, i, c', i' {:trigger table[c][i], table[c'][i']} ::
          (&& 0 <= c < |table| && 0 <= i < n
           && 0 <= c' < |table| && 0 <= i' < n
           && table[c][i] == table[c'][i']) ==> c == c' && i == i')
  }

  /** The rows of `table` have length `n` and name system degrees of
      freedom below `nSystemDofs`. */
  predicate TableShape(table: seq<seq<nat>>, n: nat, nSystemDofs: nat)
  {
    && (forall c :: 0 <= c < |table| ==> |table[c]| == n)
    && (forall c, i :: 0 <= c < |table| && 0 <= i < n ==> table[c][i] < nSystemDofs)
  }

  /** `std::vector::resize(n, v)`: the kept prefix, then copies of `v`. */
  function ResizeFill(s: seq<nat>, n: nat, v: nat): (r: seq<nat>)
    ensures |r| == n
    ensures forall k :: 0 <= k < n ==> r[k] == if k < |s| then s[k] else v
  {
    if n <= |s| then s[..n] else s + seq(n - |s|, _ => v)
  }

  /** The component part: the numbering of all `multiplicities[base]`
      components of base element `base`, which has `|scalarLex|` degrees of
      freedom, in a system with `nSystemDofs` degrees of freedom. Position
      `n * c + q` holds the system index of the degree of freedom at
      lexicographic position `q` of component `c`. `previous` is the old
      content of the output vector, which the resize keeps in front. */
  method ComponentNumbering(
    scalarLex: seq<nat>, multiplicities: seq<nat>, base: nat,
    systemIndex: seq<seq<nat>>, nSystemDofs: nat, previous: seq<nat>)
    returns (numbering: seq<nat>)
    requires IsPermutation(scalarLex)
    requires base < |multiplicities| && Start(multiplicities, base) + multiplicities[base] <= |systemIndex|
    requires ComponentTable(Components(systemIndex, Start(multiplicities, base), multiplicities[base]), |scalarLex|, nSystemDofs)
    requires multiplicities[base] * |scalarLex| <= InvalidUnsignedInt
    ensures |numbering| == multiplicities[base] * |scalarLex|
    ensures forall c, q :: 0 <= c < multiplicities[base] && 0 <= q < |scalarLex| ==>
      Slot(|scalarLex|, c, q) < |numbering| &&
      numbering[Slot(|scalarLex|, c, q)] == Components(systemIndex, Start(multiplicities, base), multiplicities[base])[c][scalarLex[q]]
  {
    var n := |scalarLex|;
    var multiplicity := multiplicities[base];
    var scalarInv := InvertPermutation(scalarLex);
    var componentsBefore := 0;
    for e := 0 to base
      invariant componentsBefore == Start(multiplicities, e)
    {
      StartStep(multiplicities, e);
      componentsBefore := componentsBefore + multiplicities[e];
    }
    var table := Components(systemIndex, componentsBefore, multiplicity);
    TimesFormula(n, multiplicity);
    var lexicographic := FillLexicographic(scalarInv, table, nSystemDofs);
    numbering := InvertLexicographic(lexicographic, scalarInv, table, previous);
    forall c, q | 0 <= c < multiplicity && 0 <= q < n
      ensures Slot(n, c, q) < |numbering| && numbering[Slot(n, c, q)] == table[c][scalarLex[q]]
    {
      var i := scalarLex[q];
      assert i < n && scalarInv[i] == q;
      assert Slot(n, c, scalarInv[i]) < |numbering| && numbering[Slot(n, c, scalarInv[i])] == table[c][i];
    }
  }

  /** Every (component, local index) pair of the first `comps` components
      has its lexicographic position stored at its system index. */
  predicate Filled(lexicographic: seq<nat>, scalarInv: seq<nat>, table: seq<seq<nat>>, comps: nat)
    requires comps <= |table| && TableShape(table, |scalarInv|, |lexicographic|)
  {
    forall c, i :: 0 <= c < comps && 0 <= i < |scalarInv| ==>
      lexicographic[table[c][i]] == Slot(|scalarInv|, c, scalarInv[i])
  }

  /** Every written entry of `lexicographic` sits at the system index of
      one of the pairs of the first `comps` components. */
  predicate OnlyPairs(lexicographic: seq<nat>, n: nat, table: seq<seq<nat>>, comps: nat)
    requires comps <= |table| && TableShape(table, n, |lexicographic|)
  {
    forall s :: 0 <= s < |lexicographic| && lexicographic[s] != InvalidUnsignedInt ==>
      exists c, i :: 0 <= c < comps && 0 <= i < n && table[c][i] == s
  }

  /** The first loop nest: for every component, the lexicographic position
      `n * comp + scalarInv[i]` is stored at the system index of local
      degree of freedom `i`; entries no pair reaches stay invalid. */
  method FillLexicographic(scalarInv: seq<nat>, table: seq<seq<nat>>, nSystemDofs: nat)
    returns (lexicographic: seq<nat>)
    requires IsPermutation(scalarInv)
    requires ComponentTable(table, |scalarInv|, nSystemDofs)
    ensures |lexicographic| == nSystemDofs
    ensures Filled(lexicographic, scalarInv, table, |table|)
    ensures OnlyPairs(lexicographic, |scalarInv|, table, |table|)
  {
    lexicographic := seq(nSystemDofs, _ => InvalidUnsignedInt);
    for comp := 0 to |table|
      invariant |lexicographic| == nSystemDofs
      invariant Filled(lexicographic, scalarInv, table, comp)
      invariant OnlyPairs(lexicographic, |scalarInv|, table, comp)
    {
      lexicographic := FillComponent(lexicographic, scalarInv, table, comp);
    }
  }

  /** The inner loop, for component `comp`. */
  method FillComponent(lexicographic: seq<nat>, scalarInv: seq<nat>, table: seq<seq<nat>>, comp: nat)
    returns (result: seq<nat>)
    requires IsPermutation(scalarInv)
    requires comp < |table| && ComponentTable(table, |scalarInv|, |lexicographic|)
    requires Filled(lexicographic, scalarInv, table, comp)
    requires OnlyPairs(lexicographic, |scalarInv|, table, comp)
    ensures |result| == |lexicographic|
    ensures Filled(result, scalarInv, table, comp + 1)
    ensures OnlyPairs(result, |scalarInv|, table, comp + 1)
  {
    var n := |scalarInv|;
    result := lexicographic;
    for i := 0 to n
      invariant |result| == |lexicographic|
      invariant Filled(result, scalarInv, table, comp)
      invariant PartlyFilled(result, scalarInv, table, comp, i)
      invariant PairsBelow(result, n, table, comp, i)
    {
      FillStep(result, scalarInv, table, comp, i);
      TimesFormula(n, comp);
      result := result[table[comp][i] := n * comp + scalarInv[i]];
    }
    FillDone(result, scalarInv, table, comp);
  }

  /** Component `comp` is written for its first `i` local indices. */
  predicate PartlyFilled(lexicographic: seq<nat>, scalarInv: seq<nat>, table: seq<seq<nat>>, comp: nat, i: nat)
    requires comp < |table| && TableShape(table, |scalarInv|, |lexicographic|) && i <= |scalarInv|
  {
    forall i' :: 0 <= i' < i ==> lexicographic[table[comp][i']] == Slot(|scalarInv|, comp, scalarInv[i'])
  }

  /** Every written entry sits at the system index of a pair written so far:
      one of an earlier component, or of component `comp` below `i`. */
  predicate PairsBelow(lexicographic: seq<nat>, n: nat, table: seq<seq<nat>>, comp: nat, i: nat)
    requires comp < |table| && TableShape(table, n, |lexicographic|) && i <= n
  {
    forall s :: 0 <= s < |lexicographic| && lexicographic[s] != InvalidUnsignedInt ==>
      exists c, i' :: 0 <= c <= comp && 0 <= i' < n && (c < comp || i' < i) && table[c][i'] == s
  }

  /** One step of the inner loop keeps what the loop has written so far:
      the system indices are distinct, so the new write disturbs no earlier
      one. */
  lemma FillStep(lexicographic: seq<nat>, scalarInv: seq<nat>, table: seq<seq<nat>>, comp: nat, i: nat)
    requires IsPermutation(scalarInv) && i < |scalarInv|
    requires comp < |table| && ComponentTable(table, |scalarInv|, |lexicographic|)
    requires Filled(lexicographic, scalarInv, table, comp)
    requires PartlyFilled(lexicographic, scalarInv, table, comp, i)
    requires PairsBelow(lexicographic, |scalarInv|, table, comp, i)
    ensures var next := lexicographic[table[comp][i] := Slot(|scalarInv|, comp, scalarInv[i])];
      && Filled(next, scalarInv, table, comp)
      && PartlyFilled(next, scalarInv, table, comp, i + 1)
      && PairsBelow(next, |scalarInv|, table, comp, i + 1)
  {
    var n := |scalarInv|;
    var next := lexicographic[table[comp][i] := Slot(n, comp, scalarInv[i])];
    forall c, i' | 0 <= c < comp && 0 <= i' < n
      ensures next[table[c][i']] == Slot(n, c, scalarInv[i'])
    {
      assert table[c][i'] != table[comp][i];
    }
    forall i' | 0 <= i' < i + 1
      ensures next[table[comp][i']] == Slot(n, comp, scalarInv[i'])
    {
      if i' < i {
        assert table[comp][i'] != table[comp][i];
      }
    }
    forall s | 0 <= s < |next| && next[s] != InvalidUnsignedInt
      ensures exists c, i' :: 0 <= c <= comp && 0 <= i' < n && (c < comp || i' < i + 1) && table[c][i'] == s
    {
      if s == table[comp][i] {
        assert table[comp][i] == s;
      } else {
        assert lexicographic[s] == next[s];
        var c, i' :| 0 <= c <= comp && 0 <= i' < n && (c < comp || i' < i) && table[c][i'] == s;
        assert table[c][i'] == s;
      }
    }
  }

  /** After the inner loop, component `comp` is filled and all writes are
      pairs of the first `comp + 1` components. */
  lemma FillDone(lexicographic: seq<nat>, scalarInv: seq<nat>, table: seq<seq<nat>>, comp: nat)
    requires comp < |table| && TableShape(table, |scalarInv|, |lexicographic|)
    requires Filled(lexicographic, scalarInv, table, comp)
    requires PartlyFilled(lexicographic, scalarInv, table, comp, |scalarInv|)
    requires PairsBelow(lexicographic, |scalarInv|, table, comp, |scalarInv|)
    ensures Filled(lexicographic, scalarInv, table, comp + 1)
    ensures OnlyPairs(lexicographic, |scalarInv|, table, comp + 1)
  {
    var n := |scalarInv|;
    forall c, i | 0 <= c < comp + 1 && 0 <= i < n
      ensures lexicographic[table[c][i]] == Slot(n, c, scalarInv[i])
    {
      if c == comp {
        assert 0 <= i < n;
      }
    }
    forall s | 0 <= s < |lexicographic| && lexicographic[s] != InvalidUnsignedInt
      ensures exists c, i :: 0 <= c < comp + 1 && 0 <= i < n && table[c][i] == s
    {
      var c, i :| 0 <= c <= comp && 0 <= i < n && (c < comp || i < n) && table[c][i] == s;
    }
  }

  /** The written entries of `lexicographic` below `s` are inverted: each
      names a position of `numbering` that holds it. */
  predicate InvertedBelow(numbering: seq<nat>, lexicographic: seq<nat>, s: nat)
    requires s <= |lexicographic|
  {
    forall s' :: 0 <= s' < s && lexicographic[s'] != InvalidUnsignedInt ==>
      lexicographic[s'] < |numbering| && numbering[lexicographic[s']] == s'
  }

  /** The second loop: every written entry `s` of `lexicographic` has `s`
      stored at the position it names, and so every pair has its system
      index stored at its lexicographic position. */
  method InvertLexicographic(lexicographic: seq<nat>, scalarInv: seq<nat>, table: seq<seq<nat>>, previous: seq<nat>)
    returns (numbering: seq<nat>)
    requires IsPermutation(scalarInv)
    requires ComponentTable(table, |scalarInv|, |lexicographic|)
    requires Times(|scalarInv|, |table|) <= InvalidUnsignedInt
    requires Filled(lexicographic, scalarInv, table, |table|)
    requires OnlyPairs(lexicographic, |scalarInv|, table, |table|)
    ensures |numbering| == Times(|scalarInv|, |table|)
    ensures forall s :: 0 <= s < |lexicographic| && lexicographic[s] != InvalidUnsignedInt ==>
      lexicographic[s] < |numbering| && numbering[lexicographic[s]] == s
    ensures forall c, i {:trigger table[c][i]} {:trigger Slot(|scalarInv|, c, scalarInv[i])} :: 0 <= c < |table| && 0 <= i < |scalarInv| ==>
      Slot(|scalarInv|, c, scalarInv[i]) < |numbering| &&
      numbering[Slot(|scalarInv|, c, scalarInv[i])] == table[c][i]
  {
    WrittenSlots(lexicographic, scalarInv, table);
    numbering := ResizeFill(previous, Times(|scalarInv|, |table|), InvalidUnsignedInt);
    for s := 0 to |lexicographic|
      invariant |numbering| == Times(|scalarInv|, |table|)
      invariant InvertedBelow(numbering, lexicographic, s)
    {
      if lexicographic[s] != InvalidUnsignedInt {
        numbering := numbering[lexicographic[s] := s];
      }
    }
    PairsInverted(numbering, lexicographic, scalarInv, table);
  }

  /** The written entries of `lexicographic` name distinct positions, all
      below `Times(n, |table|)`: each is the position of exactly one pair. */
  lemma WrittenSlots(lexicographic: seq<nat>, scalarInv: seq<nat>, table: seq<seq<nat>>)
    requires IsPermutation(scalarInv)
    requires ComponentTable(table, |scalarInv|, |lexicographic|)
    requires Filled(lexicographic, scalarInv, table, |table|)
    requires OnlyPairs(lexicographic, |scalarInv|, table, |table|)
    ensures forall s :: 0 <= s < |lexicographic| && lexicographic[s] != InvalidUnsignedInt ==>
      lexicographic[s] < Times(|scalarInv|, |table|)
    ensures forall s, s' ::
      (&& 0 <= s < s' < |lexicographic|
       && lexicographic[s] != InvalidUnsignedInt && lexicographic[s'] != InvalidUnsignedInt) ==>
      lexicographic[s] != lexicographic[s']
  {
    var n := |scalarInv|;
    forall s | 0 <= s < |lexicographic| && lexicographic[s] != InvalidUnsignedInt
      ensures lexicographic[s] < Times(n, |table|)
    {
      var c, i :| 0 <= c < |table| && 0 <= i < n && table[c][i] == s;
      SlotBound(n, |table|, c, scalarInv[i]);
    }
    forall s, s' | (&& 0 <= s < s' < |lexicographic|
                    && lexicographic[s] != InvalidUnsignedInt && lexicographic[s'] != InvalidUnsignedInt)
      ensures lexicographic[s] != lexicographic[s']
    {
      var c, i :| 0 <= c < |table| && 0 <= i < n && table[c][i] == s;
      var c', i' :| 0 <= c' < |table| && 0 <= i' < n && table[c'][i'] == s';
      PairSlotsDistinct(scalarInv, c, i, c', i');
    }
  }

  /** Every pair's position is below `Times(n, |table|)`, hence below the invalid
      marker, so its system index is a written entry; once every written
      entry is inverted, so is every pair. */
  lemma PairsInverted(numbering: seq<nat>, lexicographic: seq<nat>, scalarInv: seq<nat>, table: seq<seq<nat>>)
    requires IsPermutation(scalarInv)
    requires TableShape(table, |scalarInv|, |lexicographic|)
    requires Times(|scalarInv|, |table|) <= InvalidUnsignedInt
    requires Filled(lexicographic, scalarInv, table, |table|)
    requires InvertedBelow(numbering, lexicographic, |lexicographic|)
    ensures forall c, i {:trigger table[c][i]} {:trigger Slot(|scalarInv|, c, scalarInv[i])} :: 0 <= c < |table| && 0 <= i < |scalarInv| ==>
      Slot(|scalarInv|, c, scalarInv[i]) < |numbering| &&
      numbering[Slot(|scalarInv|, c, scalarInv[i])] == table[c][i]
  {
    forall c, i {:trigger table[c][i]} {:trigger Slot(|scalarInv|, c, scalarInv[i])} | 0 <= c < |table| && 0 <= i < |scalarInv|
      ensures Slot(|scalarInv|, c, scalarInv[i]) < |numbering|
      ensures numbering[Slot(|scalarInv|, c, scalarInv[i])] == table[c][i]
    {
      PairInverted(numbering, lexicographic, scalarInv, table, c, i);
    }
  }

  /** One pair of `PairsInverted`. */
  lemma PairInverted(numbering: seq<nat>, lexicographic: seq<nat>, scalarInv: seq<nat>, table: seq<seq<nat>>, c: nat, i: nat)
    requires IsPermutation(scalarInv)
    requires TableShape(table, |scalarInv|, |lexicographic|)
    requires Times(|scalarInv|, |table|) <= InvalidUnsignedInt
    requires Filled(lexicographic, scalarInv, table, |table|)
    requires InvertedBelow(numbering, lexicographic, |lexicographic|)
    requires c < |table| && i < |scalarInv|
    ensures Slot(|scalarInv|, c, scalarInv[i]) < |numbering|
    ensures numbering[Slot(|scalarInv|, c, scalarInv[i])] == table[c][i]
  {
    var s := table[c][i];
    var slot := Slot(|scalarInv|, c, scalarInv[i]);
    assert s < |lexicographic| && lexicographic[s] == slot;
    SlotBound(|scalarInv|, |table|, c, scalarInv[i]);
    assert slot != InvalidUnsignedInt;
  }


  /** The numbering of all components is one-to-one and names system
      degrees of freedom only: distinct positions hold distinct system
      indices. */
  lemma {:induction false} ComponentNumberingDistinct(
    numbering: seq<nat>, scalarLex: seq<nat>, table: seq<seq<nat>>, nSystemDofs: nat)
    requires IsPermutation(scalarLex)
    requires ComponentTable(table, |scalarLex|, nSystemDofs)
    requires |numbering| == Times(|scalarLex|, |table|)
    requires forall c, q :: 0 <= c < |table| && 0 <= q < |scalarLex| ==>
      Slot(|scalarLex|, c, q) < |numbering| && numbering[Slot(|scalarLex|, c, q)] == table[c][scalarLex[q]]
    ensures forall k :: 0 <= k < |numbering| ==> numbering[k] < nSystemDofs
    ensures Injective(numbering)
  {
    var n := |scalarLex|;
    forall k | 0 <= k < |numbering|
      ensures numbering[k] < nSystemDofs
    {
      var c, q := SlotOf(n, |table|, k);
      assert table[c][scalarLex[q]] < nSystemDofs;
    }
    forall a, b | 0 <= a < b < |numbering|
      ensures numbering[a] != numbering[b]
    {
      var ca, qa := SlotOf(n, |table|, a);
      var cb, qb := SlotOf(n, |table|, b);
    }
  }

  /** Every position below `Times(n, multiplicity)` is the slot of one
      (component, lexicographic index) pair. */
  lemma SlotOf(n: nat, multiplicity: nat, k: nat) returns (c: nat, q: nat)
    requires k < Times(n, multiplicity)
    ensures c < multiplicity && q < n && k == Slot(n, c, q)
  {
    TimesFormula(n, multiplicity);
    assert n > 0;
    c, q := k / n, k % n;
    DivModSplit(n, k);
    TimesFormula(n, c);
    if c >= multiplicity {
      MulMonotone(multiplicity, c, n);
      assert false;
    }
  }

  /** The kind-specific element type of `get_element_type_specific_information`. */
  function KindElementType(kind: ElementKind): ElementType
  {
    match kind
    case SimplexLike => TensorNone
    case TensorPolynomial(_) => TensorGeneral
    case DiscontinuousP => TruncatedTensor
    case ContinuousPlusDg0(_) => TensorSymmetricPlusDg0
    case OtherKind => TensorGeneral
  }

  /** `get_element_type_specific_information` for base element `base` of a
      system with `nComponents` components: the element type, the scalar
      lexicographic numbering and the numbering of the whole system element,
      or `None` where the source gives up (an unsupported element with
      degrees of freedom). */
  method ElementTypeSpecificInformation(
    kind: ElementKind, nDofs: nat, nComponents: nat, multiplicities: seq<nat>, base: nat,
    systemIndex: seq<seq<nat>>, nSystemDofs: nat, previous: seq<nat>)
    returns (r: Option<(ElementType, seq<nat>, seq<nat>)>)
    requires (kind.TensorPolynomial? || kind.ContinuousPlusDg0?) ==>
      IsPermutation(kind.numberingInverse) && |kind.numberingInverse| == nDofs
    requires nComponents != 1 ==>
      && base < |multiplicities| && Start(multiplicities, base) + multiplicities[base] <= |systemIndex|
      && ComponentTable(Components(systemIndex, Start(multiplicities, base), multiplicities[base]), nDofs, nSystemDofs)
      && multiplicities[base] * nDofs <= InvalidUnsignedInt
    ensures r.None? <==> kind.OtherKind? && nDofs > 0
    ensures r.Some? ==> r.value.0 == KindElementType(kind) && |r.value.1| == nDofs && IsPermutation(r.value.1)
    ensures r.Some? && (kind.SimplexLike? || kind.DiscontinuousP?) ==> r.value.1 == Identity(nDofs)
    ensures r.Some? && nComponents == 1 ==> r.value.2 == r.value.1
    ensures r.Some? && nComponents != 1 ==>
      var table := Components(systemIndex, Start(multiplicities, base), multiplicities[base]);
      && |r.value.2| == multiplicities[base] * nDofs
      && Injective(r.value.2)
      && (forall k :: 0 <= k < |r.value.2| ==> r.value.2[k] < nSystemDofs)
      && (forall c, q :: 0 <= c < multiplicities[base] && 0 <= q < nDofs ==>
            Slot(nDofs, c, q) < |r.value.2| && r.value.2[Slot(nDofs, c, q)] == table[c][r.value.1[q]])
  {
    var scalar := ScalarNumbering(kind, nDofs);
    if scalar.None? {
      return None;
    }
    var (elementType, scalarLex) := scalar.value;
    if nComponents == 1 {
      r := Some((elementType, scalarLex, scalarLex));
    } else {
      var numbering := ComponentNumbering(scalarLex, multiplicities, base, systemIndex, nSystemDofs, previous);
      TimesFormula(nDofs, multiplicities[base]);
      ComponentNumberingDistinct(numbering, scalarLex, Components(systemIndex, Start(multiplicities, base), multiplicities[base]), nSystemDofs);
      r := Some((elementType, scalarLex, numbering));
    }
  }

  /** Position of lexicographic index `q` of component `c` when every
      component has `n` positions: `n * c + q`. */
  function Slot(n: nat, c: nat, q: nat): nat
  {
    Times(n, c) + q
  }

  /** `n * c` counted up one component at a time, which keeps the solver
      away from products (see `TimesFormula`). */
  function Times(n: nat, c: nat): nat
  {
    if c == 0 then 0 else n + Times(n, c - 1)
  }

  lemma {:induction false} TimesFormula(n: nat, c: nat)
    ensures Times(n, c) == n * c
  {
    if c > 0 {
      TimesFormula(n, c - 1);
    }
  }

  /** Every slot of `multiplicity` components of `n` positions lies below
      `Times(n, multiplicity)`. */
  lemma SlotBounds(n: nat, multiplicity: nat)
    ensures forall c, q :: 0 <= c < multiplicity && 0 <= q < n ==> Slot(n, c, q) < Times(n, multiplicity)
  {
    forall c, q | 0 <= c < multiplicity && 0 <= q < n
      ensures Slot(n, c, q) < Times(n, multiplicity)
    {
      SlotBound(n, multiplicity, c, q);
    }
  }

  lemma SlotBound(n: nat, multiplicity: nat, c: nat, q: nat)
    requires c < multiplicity && q < n
    ensures Slot(n, c, q) < Times(n, multiplicity)
  {
    TimesFormula(n, c);
    TimesFormula(n, multiplicity);
    DigitsBound(n, q, c, multiplicity);
  }

  /** Distinct (component, local index) pairs go to distinct positions. */
  lemma PairSlotsDistinct(scalarInv: seq<nat>, a: nat, i: nat, b: nat, j: nat)
    requires IsPermutation(scalarInv) && i < |scalarInv| && j < |scalarInv| && (a != b || i != j)
    ensures Slot(|scalarInv|, a, scalarInv[i]) != Slot(|scalarInv|, b, scalarInv[j])
  {
    if Slot(|scalarInv|, a, scalarInv[i]) == Slot(|scalarInv|, b, scalarInv[j]) {
      SlotUnique(|scalarInv|, a, scalarInv[i], b, scalarInv[j]);
      assert false;
    }
  }

  lemma SlotUnique(n: nat, c: nat, q: nat, c': nat, q': nat)
    requires q < n && q' < n && Slot(n, c, q) == Slot(n, c', q')
    ensures c == c' && q == q'
  {
    TimesFormula(n, c);
    TimesFormula(n, c');
    DivModUnique(n, c, q);
    DivModUnique(n, c', q');
  }
}
