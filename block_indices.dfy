/**
  Block index bookkeeping: a vector of block sizes seen as a prefix-sum
  offset table. Block `b` covers the global indices
  `[Start(sizes, b), Start(sizes, b) + sizes[b])`, and the blocks tile
  `[0, Sum(sizes))` without gaps or overlaps.
 */
module BlockIndices {

  /** Total of all block sizes (the global size). Accumulates from the back,
      so that `Sum(s[..b + 1]) == Sum(s[..b]) + s[b]` unfolds directly. */
  function Sum(s: seq<nat>): nat
  {
    if s == [] then 0 else Sum(s[..|s| - 1]) + s[|s| - 1]
  }

  /** First global index of block `b`: the total size of the blocks before it. */
  function Start(s: seq<nat>, b: nat): nat
    requires b <= |s|
  {
    Sum(s[..b])
  }

  /** Global index of local index `i` of block `b`. */
  function LocalToGlobal(s: seq<nat>, b: nat, i: nat): nat
    requires b < |s|
  {
    Start(s, b) + i
  }

  lemma StartStep(s: seq<nat>, b: nat)
    requires b < |s|
    ensures Start(s, b + 1) == Start(s, b) + s[b]
  {
    assert s[..b + 1][..b] == s[..b];
  }

  lemma {:induction false} StartFull(s: seq<nat>)
    ensures Start(s, |s|) == Sum(s)
  {
    assert s[..|s|] == s;
  }

  /** Offsets never decrease along the blocks and never pass the total. */
  lemma {:induction false} StartMonotone(s: seq<nat>, a: nat, b: nat)
    requires a <= b <= |s|
    ensures Start(s, a) + (if a < b then s[a] else 0) <= Start(s, b) <= Sum(s)
    decreases |s| - a
  {
    if a < b {
      StartStep(s, a);
      StartMonotone(s, a + 1, b);
    } else if b < |s| {
      StartStep(s, b);
      StartMonotone(s, b + 1, |s|);
    } else {
      StartFull(s);
    }
  }

  /** A local index inside its block is a valid global index. */
  lemma LocalToGlobalBound(s: seq<nat>, b: nat, i: nat)
    requires b < |s| && i < s[b]
    ensures LocalToGlobal(s, b, i) < Sum(s)
  {
    StartMonotone(s, b, |s|);
    if b + 1 < |s| {
      StartMonotone(s, b, b + 1);
      StartMonotone(s, b + 1, |s|);
    } else {
      StartStep(s, b);
      StartFull(s);
    }
  }

  /** Distinct (block, local index) pairs have distinct global indices, and
      the global order follows the block order. */
  lemma LocalToGlobalOrdered(s: seq<nat>, b: nat, i: nat, b': nat, i': nat)
    requires b < b' < |s| && i < s[b]
    ensures LocalToGlobal(s, b, i) < LocalToGlobal(s, b', i')
  {
    StartMonotone(s, b, b');
  }
}
