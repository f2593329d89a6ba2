/** The two-row loop over byte strings (include/bitcask/fuzzy_matcher.hpp), in its 32-bit arithmetic. */
module Levenshtein {
  import opened Bytes
  import opened EditDistance

  /** Addition of 0 or 1 to a 32-bit number, which wraps to 0. */
  function Plus(x: uint32, c: nat): uint32
    requires c <= 1
  {
    if x as int + c > UINT32_MAX then 0 else x as int + c
  }

  /** A cell from its three neighbours. */
  function Cell(up: uint32, left: uint32, diagonal: uint32, cost: nat): (r: uint32)
    requires cost <= 1
    ensures r <= Plus(up, 1) && r <= Plus(left, 1)
  {
    Min3(Plus(up, 1), Plus(left, 1), Plus(diagonal, cost))
  }

  /** The recurrence in the uint32_t arithmetic of the loop. */
  function Wrapped(a: seq<byte>, i: nat, b: seq<byte>, j: nat): uint32
    requires i <= |a| && j <= |b|
    decreases i + j, 1
  {
    if i == 0 then Wrap32(j) else if j == 0 then Wrap32(i) else WrappedCell(a, i, b, j)
  }

  function WrappedCell(a: seq<byte>, i: nat, b: seq<byte>, j: nat): uint32
    requires 0 < i <= |a| && 0 < j <= |b|
    decreases i + j, 0
  {
    Cell(Wrapped(a, i - 1, b, j), Wrapped(a, i, b, j - 1), Wrapped(a, i - 1, b, j - 1), Cost(a, i - 1, b, j - 1))
  }

  // ---------------------------------------------------------------------------------------
  // Where nothing wraps
  // ---------------------------------------------------------------------------------------

  /** Lengths for which the loop cannot go wrong. An empty string is answered before the loop. */
  predicate LengthsOk(m: nat, n: nat) {
    if m == 0 then n <= UINT32_MAX else if n == 0 then m <= UINT32_MAX else m < UINT32_MAX && n < UINT32_MAX
  }

  lemma WrappedFrom(a: seq<byte>, i: nat, b: seq<byte>, j: nat, up: uint32, left: uint32, diagonal: uint32)
    requires 0 < i <= |a| && 0 < j <= |b|
    requires up == Wrapped(a, i - 1, b, j) && left == Wrapped(a, i, b, j - 1)
    requires diagonal == Wrapped(a, i - 1, b, j - 1)
    ensures Wrapped(a, i, b, j) == Cell(up, left, diagonal, Cost(a, i - 1, b, j - 1))
  {
  }

  /** A cell is not above its upper and left neighbours plus one, added in 32 bits. */
  lemma CellAtMost(a: seq<byte>, i: nat, b: seq<byte>, j: nat)
    requires 0 < i <= |a| && 0 < j <= |b|
    ensures Wrapped(a, i, b, j) <= Plus(Wrapped(a, i - 1, b, j), 1)
    ensures Wrapped(a, i, b, j) <= Plus(Wrapped(a, i, b, j - 1), 1)
  {
    WrappedFrom(a, i, b, j, Wrapped(a, i - 1, b, j), Wrapped(a, i, b, j - 1), Wrapped(a, i - 1, b, j - 1));
  }

  lemma MinNoWrap(x: nat, y: nat, z: nat, cost: nat)
    requires x < UINT32_MAX && y < UINT32_MAX && z < UINT32_MAX && cost <= 1
    ensures Cell(x, y, z, cost) == Min3(x + 1, y + 1, z + cost)
  {
  }

  lemma CellNoWrap(a: seq<byte>, i: nat, b: seq<byte>, j: nat, up: nat, left: nat, diagonal: nat)
    requires 0 < i <= |a| && 0 < j <= |b|
    requires up == D(a, i - 1, b, j) == Wrapped(a, i - 1, b, j) < UINT32_MAX
    requires left == D(a, i, b, j - 1) == Wrapped(a, i, b, j - 1) < UINT32_MAX
    requires diagonal == D(a, i - 1, b, j - 1) == Wrapped(a, i - 1, b, j - 1) < UINT32_MAX
    ensures Wrapped(a, i, b, j) == D(a, i, b, j)
  {
    var cost := Cost(a, i - 1, b, j - 1);
    WrappedFrom(a, i, b, j, up, left, diagonal);
    MinNoWrap(up, left, diagonal, cost);
    assert D(a, i, b, j) == Min3(up + 1, left + 1, diagonal + cost);
  }

  lemma NeighboursFit(a: seq<byte>, i: nat, b: seq<byte>, j: nat)
    requires 0 < i <= |a| < UINT32_MAX && 0 < j <= |b| < UINT32_MAX
    ensures D(a, i - 1, b, j) < UINT32_MAX && D(a, i, b, j - 1) < UINT32_MAX && D(a, i - 1, b, j - 1) < UINT32_MAX
  {
    AtMostLongerLength(a, i - 1, b, j);
    AtMostLongerLength(a, i, b, j - 1);
    AtMostLongerLength(a, i - 1, b, j - 1);
  }

  lemma {:induction false} NoWrap(a: seq<byte>, i: nat, b: seq<byte>, j: nat)
    requires i <= |a| < UINT32_MAX && j <= |b| < UINT32_MAX
    ensures Wrapped(a, i, b, j) == D(a, i, b, j)
    decreases i + j
  {
    if i > 0 && j > 0 {
      NoWrap(a, i - 1, b, j);
      NoWrap(a, i, b, j - 1);
      NoWrap(a, i - 1, b, j - 1);
      NeighboursFit(a, i, b, j);
      CellNoWrap(a, i, b, j, D(a, i - 1, b, j), D(a, i, b, j - 1), D(a, i - 1, b, j - 1));
    }
  }

  lemma RightLengths(a: seq<byte>, b: seq<byte>)
    requires LengthsOk(|a|, |b|)
    ensures Wrapped(a, |a|, b, |b|) == Distance(a, b)
  {
    if a != [] && b != [] {
      NoWrap(a, |a|, b, |b|);
    }
  }

  // ---------------------------------------------------------------------------------------
  // Where the loop is wrong
  // ---------------------------------------------------------------------------------------

  predicate NothingInCommon(a: seq<byte>, b: seq<byte>) {
    forall i, j :: 0 <= i < |a| && 0 <= j < |b| ==> a[i] != b[j]
  }

  lemma {:induction false} DistanceApart(a: seq<byte>, i: nat, b: seq<byte>, j: nat)
    requires i <= |a| && j <= |b| && NothingInCommon(a, b)
    ensures D(a, i, b, j) >= i && D(a, i, b, j) >= j
    decreases i + j
  {
    if i > 0 && j > 0 {
      DistanceApart(a, i - 1, b, j);
      DistanceApart(a, i, b, j - 1);
      DistanceApart(a, i - 1, b, j - 1);
      assert Cost(a, i - 1, b, j - 1) == 1;
    }
  }

  /** Column 2^32 - 1 begins with the largest number, and one more is 0. */
  lemma {:induction false} LastColumn(a: seq<byte>, i: nat, b: seq<byte>, j: nat)
    requires 0 < i <= |a| && j == UINT32_MAX <= |b|
    ensures Wrapped(a, i, b, j) < i
    decreases i
  {
    CellAtMost(a, i, b, j);
    if i > 1 {
      LastColumn(a, i - 1, b, j);
    }
  }

  /** So does row 2^32 - 1. */
  lemma {:induction false} LastRow(a: seq<byte>, i: nat, b: seq<byte>, j: nat)
    requires i == UINT32_MAX <= |a| && 0 < j <= |b|
    ensures Wrapped(a, i, b, j) < j
    decreases j
  {
    CellAtMost(a, i, b, j);
    if j > 1 {
      LastRow(a, i, b, j - 1);
    }
  }

  lemma WrongLengths(a: seq<byte>, b: seq<byte>)
    requires !LengthsOk(|a|, |b|) && NothingInCommon(a, b)
    ensures Wrapped(a, |a|, b, |b|) != Distance(a, b)
  {
    DistanceApart(a, |a|, b, |b|);
    if |a| <= UINT32_MAX && |b| <= UINT32_MAX {
      if |b| == UINT32_MAX {
        LastColumn(a, |a|, b, |b|);
      } else {
        LastRow(a, |a|, b, |b|);
      }
    }
  }

  /** The loop is right for all strings of two lengths exactly if the lengths are as above; otherwise it is wrong for
      any two strings of these lengths that have no byte in common. */
  lemma RightExactlyFor(m: nat, n: nat)
    ensures LengthsOk(m, n) <==>
            forall a: seq<byte>, b: seq<byte> :: |a| == m && |b| == n ==> Wrapped(a, |a|, b, |b|) == Distance(a, b)
  {
    if LengthsOk(m, n) {
      forall a: seq<byte>, b: seq<byte> | |a| == m && |b| == n ensures Wrapped(a, |a|, b, |b|) == Distance(a, b) {
        RightLengths(a, b);
      }
    } else {
      var a: seq<byte> := seq(m, _ => 0);
      var b: seq<byte> := seq(n, _ => 1);
      WrongLengths(a, b);
    }
  }

  // ---------------------------------------------------------------------------------------
  // The loop
  // ---------------------------------------------------------------------------------------

  /** One pass of the inner loop. */
  method FillRow(a: seq<byte>, i: nat, b: seq<byte>, prev: array<uint32>, curr: array<uint32>)
    requires i < |a| && prev.Length == curr.Length == |b| + 1 && prev != curr
    requires forall k :: 0 <= k <= |b| ==> prev[k] == Wrapped(a, i, b, k)
    modifies curr
    ensures forall k :: 0 <= k <= |b| ==> curr[k] == Wrapped(a, i + 1, b, k)
  {
    curr[0] := Wrap32(i + 1);
    for j := 0 to |b|
      invariant forall k :: 0 <= k <= j ==> curr[k] == Wrapped(a, i + 1, b, k)
    {
      var cost := if a[i] == b[j] then 0 else 1;
      WrappedFrom(a, i + 1, b, j + 1, prev[j + 1], curr[j], prev[j]);
      curr[j + 1] := Cell(prev[j + 1], curr[j], prev[j], cost);
    }
  }

  /** levenshtein_distance */
  method LevenshteinDistance(a: seq<byte>, b: seq<byte>) returns (d: uint32)
    ensures d == Wrapped(a, |a|, b, |b|)
    ensures LengthsOk(|a|, |b|) ==> d == Distance(a, b)
  {
    if LengthsOk(|a|, |b|) {
      RightLengths(a, b);
    }
    if a == [] {
      return Wrap32(|b|);
    }
    if b == [] {
      return Wrap32(|a|);
    }
    var prev := new uint32[|b| + 1];
    var curr := new uint32[|b| + 1];
    for j := 0 to |b| + 1
      invariant forall k :: 0 <= k < j ==> prev[k] == Wrapped(a, 0, b, k)
    {
      prev[j] := Wrap32(j);
    }
    for i := 0 to |a|
      invariant prev.Length == curr.Length == |b| + 1 && prev != curr && fresh(prev) && fresh(curr)
      invariant forall k :: 0 <= k <= |b| ==> prev[k] == Wrapped(a, i, b, k)
    {
      FillRow(a, i, b, prev, curr);
      prev, curr := curr, prev;
    }
    return prev[|b|];
  }
}
