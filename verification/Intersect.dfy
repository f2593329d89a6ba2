/**
  Intersection of two strictly ascending arrays (bench/intersect_u64_proto_bench.cpp): a four-by-four
  all-pairs comparison on vector registers with a compaction table, proved to return exactly what the
  scalar merge returns. A 256-bit register is eight 32-bit lanes; a 64-bit element takes two of them.
 */
module Intersect {
  import opened Bytes

  // ---------------------------------------------------------------------------------------
  // What an intersection is
  // ---------------------------------------------------------------------------------------

  ghost predicate Ascending(s: seq<uint64>) {
    forall p, q :: 0 <= p < q < |s| ==> s[p] < s[q]
  }

  ghost predicate IsIntersection(out: seq<uint64>, a: seq<uint64>, b: seq<uint64>) {
    Ascending(out) && forall x :: x in out <==> x in a && x in b
  }

  /** Ascending sequences with the same elements are the same sequence, so there is one intersection. */
  lemma {:induction false} SameElements(s: seq<uint64>, t: seq<uint64>)
    requires Ascending(s) && Ascending(t)
    requires forall x :: x in s <==> x in t
    ensures s == t
    decreases |s| + |t|, if |s| < |t| then 1 else 0
  {
    if |s| < |t| {
      SameElements(t, s);
    } else if s != [] {
      var m, n := |s| - 1, |t| - 1;
      assert s[m] in s && s[m] in t;
      assert t[n] in t && t[n] in s;
      assert s[m] == t[n];
      forall x ensures x in s[..m] <==> x in t[..n] {
        assert x in s[..m] <==> x in s && x != s[m];
        assert x in t[..n] <==> x in t && x != t[n];
      }
      SameElements(s[..m], t[..n]);
      assert s == s[..m] + [s[m]] && t == t[..n] + [t[n]];
    }
  }

  lemma IntersectionIsUnique(out: seq<uint64>, other: seq<uint64>, a: seq<uint64>, b: seq<uint64>)
    requires IsIntersection(out, a, b) && IsIntersection(other, a, b)
    ensures out == other
  {
    SameElements(out, other);
  }

  /** Ascending values drawn from s are no more than s has. */
  lemma {:induction false} NoMoreThan(out: seq<uint64>, s: seq<uint64>)
    requires Ascending(out) && Ascending(s) && forall x :: x in out ==> x in s
    ensures |out| <= |s|
    decreases |s|
  {
    if out != [] {
      var m := |out| - 1;
      assert out[m] in s;
      var n := |s| - 1;
      forall x | x in out[..m] ensures x in s[..n] {
        var p :| 0 <= p < m && out[p] == x;
        assert x in out;
        var q :| 0 <= q < |s| && s[q] == x;
        var l :| 0 <= l < |s| && s[l] == out[m];
        assert q < n;
        assert s[..n][q] == x;
      }
      NoMoreThan(out[..m], s[..n]);
    }
  }

  // ---------------------------------------------------------------------------------------
  // The part done so far
  // ---------------------------------------------------------------------------------------

  /** out holds exactly the common values that lie in a[..i] or b[..j], in order. */
  ghost predicate Done(out: seq<uint64>, a: seq<uint64>, b: seq<uint64>, i: nat, j: nat)
    requires i <= |a| && j <= |b|
  {
    && Ascending(out)
    && forall x :: x in out <==> x in a && x in b && (x in a[..i] || x in b[..j])
  }

  lemma DoneAtEnd(out: seq<uint64>, a: seq<uint64>, b: seq<uint64>, i: nat, j: nat)
    requires i <= |a| && j <= |b| && (i == |a| || j == |b|) && Done(out, a, b, i, j)
    ensures IsIntersection(out, a, b)
  {
    assert a[..|a|] == a && b[..|b|] == b;
  }

  /** Everything emitted so far is below what either side still has. */
  lemma EmittedIsBelow(out: seq<uint64>, a: seq<uint64>, b: seq<uint64>, i: nat, j: nat, x: uint64, y: uint64)
    requires Ascending(a) && Ascending(b) && i <= |a| && j <= |b| && Done(out, a, b, i, j)
    requires x in out && y in a[i..] && y in b[j..]
    ensures x < y
  {
    var p :| i <= p < |a| && a[p] == y;
    var q :| j <= q < |b| && b[q] == y;
    if x in a[..i] {
      var k :| 0 <= k < i && a[k] == x;
    } else {
      assert x in b[..j];
      var k :| 0 <= k < j && b[k] == x;
    }
  }

  /** One comparison of the scalar merge. */
  lemma SkipLeft(out: seq<uint64>, a: seq<uint64>, b: seq<uint64>, i: nat, j: nat)
    requires Ascending(a) && Ascending(b) && i < |a| && j < |b| && Done(out, a, b, i, j) && a[i] < b[j]
    ensures Done(out, a, b, i + 1, j)
  {
    assert a[..i + 1] == a[..i] + [a[i]];
    if a[i] in b {
      var q :| 0 <= q < |b| && b[q] == a[i];
      assert b[..j][q] == a[i];
    }
  }

  lemma SkipRight(out: seq<uint64>, a: seq<uint64>, b: seq<uint64>, i: nat, j: nat)
    requires Ascending(a) && Ascending(b) && i < |a| && j < |b| && Done(out, a, b, i, j) && b[j] < a[i]
    ensures Done(out, a, b, i, j + 1)
  {
    assert b[..j + 1] == b[..j] + [b[j]];
    if b[j] in a {
      var q :| 0 <= q < |a| && a[q] == b[j];
      assert a[..i][q] == b[j];
    }
  }

  lemma TakeBoth(out: seq<uint64>, a: seq<uint64>, b: seq<uint64>, i: nat, j: nat)
    requires Ascending(a) && Ascending(b) && i < |a| && j < |b| && Done(out, a, b, i, j) && a[i] == b[j]
    ensures Done(out + [a[i]], a, b, i + 1, j + 1)
  {
    assert a[..i + 1] == a[..i] + [a[i]] && b[..j + 1] == b[..j] + [b[j]];
    assert a[i] == a[i..][0] && b[j] == b[j..][0];
    forall p | 0 <= p < |out| ensures out[p] < a[i] {
      EmittedIsBelow(out, a, b, i, j, out[p], a[i]);
    }
    forall x
      ensures x in out + [a[i]] <==> x in a && x in b && (x in a[..i + 1] || x in b[..j + 1])
    {
      assert x in out + [a[i]] <==> x in out || x == a[i];
    }
  }

  /** The merge loop from (i, j) on, appending to what was found before. */
  method MergeFrom(a: seq<uint64>, b: seq<uint64>, i: nat, j: nat, found: seq<uint64>) returns (out: seq<uint64>)
    requires Ascending(a) && Ascending(b) && i <= |a| && j <= |b| && Done(found, a, b, i, j)
    ensures IsIntersection(out, a, b)
  {
    out := found;
    var ti: nat, tj: nat := i, j;
    while ti < |a| && tj < |b|
      invariant ti <= |a| && tj <= |b| && Done(out, a, b, ti, tj)
      decreases |a| - ti + |b| - tj
    {
      if a[ti] < b[tj] {
        SkipLeft(out, a, b, ti, tj);
        ti := ti + 1;
      } else if b[tj] < a[ti] {
        SkipRight(out, a, b, ti, tj);
        tj := tj + 1;
      } else {
        TakeBoth(out, a, b, ti, tj);
        out := out + [a[ti]];
        ti, tj := ti + 1, tj + 1;
      }
    }
    DoneAtEnd(out, a, b, ti, tj);
  }

  /** intersect_u64_scalar */
  method Scalar(a: seq<uint64>, b: seq<uint64>) returns (out: seq<uint64>)
    requires Ascending(a) && Ascending(b)
    ensures IsIntersection(out, a, b)
  {
    out := MergeFrom(a, b, 0, 0, []);
  }

  // ---------------------------------------------------------------------------------------
  // Registers
  // ---------------------------------------------------------------------------------------

  type Vector = v: seq<uint32> | |v| == 8 witness [0, 0, 0, 0, 0, 0, 0, 0]
  type Mask = m: seq<bool> | |m| == 4 witness [false, false, false, false]

  function Low(x: uint64): uint32 {
    x % 0x1_0000_0000
  }

  function High(x: uint64): uint32 {
    x / 0x1_0000_0000
  }

  /** The k-th 64-bit lane. */
  function Lane(v: Vector, k: nat): uint64
    requires k < 4
  {
    v[2 * k] as int + 0x1_0000_0000 * (v[2 * k + 1] as int)
  }

  /** _mm256_loadu_si256 */
  function Load(a: seq<uint64>, i: nat): (v: Vector)
    requires i + 4 <= |a|
    ensures forall k: nat :: k < 4 ==> Lane(v, k) == a[i + k]
  {
    [Low(a[i]), High(a[i]), Low(a[i + 1]), High(a[i + 1]),
     Low(a[i + 2]), High(a[i + 2]), Low(a[i + 3]), High(a[i + 3])]
  }

  /** _mm256_permutevar8x32_epi32 */
  function Permute(v: Vector, idx: seq<nat>): Vector
    requires |idx| == 8
  {
    seq(8, k requires 0 <= k < 8 => v[idx[k] % 8])
  }

  /** _mm256_cmpeq_epi64 */
  function CompareEqual(v: Vector, w: Vector): (m: Mask)
    ensures forall k: nat :: k < 4 ==> (m[k] <==> Lane(v, k) == Lane(w, k))
  {
    seq(4, k requires 0 <= k < 4 => v[2 * k] == w[2 * k] && v[2 * k + 1] == w[2 * k + 1])
  }

  function Or(m: Mask, n: Mask): (r: Mask)
    ensures forall k :: 0 <= k < 4 ==> (r[k] <==> m[k] || n[k])
  {
    [m[0] || n[0], m[1] || n[1], m[2] || n[2], m[3] || n[3]]
  }

  function Bit(b: bool): nat {
    if b then 1 else 0
  }

  /** _mm256_movemask_pd */
  function MoveMask(m: Mask): (r: nat)
    ensures r < 16
  {
    Bit(m[0]) + 2 * Bit(m[1]) + 4 * Bit(m[2]) + 8 * Bit(m[3])
  }

  /** m >> k & 1 */
  predicate Has(m: nat, k: nat) {
    if k == 0 then m % 2 == 1
    else if k == 1 then m / 2 % 2 == 1
    else if k == 2 then m / 4 % 2 == 1
    else m / 8 % 2 == 1
  }

  lemma MaskBits(m: Mask, k: nat)
    requires k < 4
    ensures Has(MoveMask(m), k) == m[k]
  {
  }

  /** kRot: rotations of the four 64-bit lanes. */
  const ROT: seq<seq<nat>> := [
    [0, 1, 2, 3, 4, 5, 6, 7],
    [2, 3, 4, 5, 6, 7, 0, 1],
    [4, 5, 6, 7, 0, 1, 2, 3],
    [6, 7, 0, 1, 2, 3, 4, 5]]

  lemma Rotated(v: Vector, r: nat, k: nat)
    requires r < 4 && k < 4
    ensures Lane(Permute(v, ROT[r]), k) == Lane(v, (k + r) % 4)
  {
  }

  /** x is in one of the r lanes of v that follow lane k, cyclically and from k itself on. */
  predicate Seen(x: uint64, v: Vector, k: nat, r: nat) {
    r > 0 && (Seen(x, v, k, r - 1) || x == Lane(v, (k + r - 1) % 4))
  }

  lemma SeenAll(x: uint64, v: Vector, k: nat)
    requires k < 4
    ensures Seen(x, v, k, 4) <==> x in [Lane(v, 0), Lane(v, 1), Lane(v, 2), Lane(v, 3)]
  {
    assert Seen(x, v, k, 1) <==> x == Lane(v, k);
    assert Seen(x, v, k, 2) <==> x == Lane(v, k) || x == Lane(v, (k + 1) % 4);
    assert Seen(x, v, k, 3) <==> Seen(x, v, k, 2) || x == Lane(v, (k + 2) % 4);
    assert Seen(x, v, k, 4) <==> Seen(x, v, k, 2) || x == Lane(v, (k + 2) % 4) || x == Lane(v, (k + 3) % 4);
  }

  ghost predicate AllSeen(cmp: Mask, va: Vector, vb: Vector, r: nat) {
    forall k: nat :: k < 4 ==> (cmp[k] <==> Seen(Lane(va, k), vb, k, r))
  }

  lemma Round(cmp: Mask, va: Vector, vb: Vector, r: nat, next: Mask)
    requires 1 <= r && AllSeen(cmp, va, vb, r)
    requires forall k: nat :: k < 4 ==> (next[k] <==> cmp[k] || Lane(va, k) == Lane(vb, (k + r) % 4))
    ensures AllSeen(next, va, vb, r + 1)
  {
  }

  method CompareRotated(cmp: Mask, va: Vector, vb: Vector, r: nat) returns (next: Mask)
    requires r < 4
    ensures forall k: nat :: k < 4 ==> (next[k] <==> cmp[k] || Lane(va, k) == Lane(vb, (k + r) % 4))
  {
    var rotated := Permute(vb, ROT[r]);
    next := Or(cmp, CompareEqual(va, rotated));
    forall k: nat | k < 4 ensures Lane(rotated, k) == Lane(vb, (k + r) % 4) {
      Rotated(vb, r, k);
    }
  }

  /** All sixteen pairs: lane k is set when va's lane k is somewhere in vb. */
  method AllPairs(va: Vector, vb: Vector) returns (cmp: Mask)
    ensures AllSeen(cmp, va, vb, 4)
  {
    cmp := CompareEqual(va, vb);
    assert AllSeen(cmp, va, vb, 1);
    for r := 1 to 4
      invariant AllSeen(cmp, va, vb, r)
    {
      var next := CompareRotated(cmp, va, vb, r);
      Round(cmp, va, vb, r, next);
      cmp := next;
    }
  }

  // ---------------------------------------------------------------------------------------
  // The compaction table
  // ---------------------------------------------------------------------------------------

  /** The set bits of a mask below k, ascending. */
  function Positions(m: nat, k: nat): (p: seq<nat>)
    requires k <= 4
    ensures |p| <= k
    ensures forall t :: 0 <= t < |p| ==> p[t] < k
    decreases k, m
  {
    if k == 0 then [] else Positions(m, k - 1) + if Has(m, k - 1) then [k - 1] else []
  }

  lemma {:induction false} PositionsExact(m: nat, k: nat)
    requires k <= 4
    ensures forall t, u :: 0 <= t < u < |Positions(m, k)| ==> Positions(m, k)[t] < Positions(m, k)[u]
    ensures forall l: nat :: l in Positions(m, k) <==> l < k && Has(m, l)
  {
    if k > 0 {
      PositionsExact(m, k - 1);
    }
  }

  /** std::popcount of a four-bit mask. */
  function PopCount(m: nat): (n: nat)
    ensures n == |Positions(m, 4)|
  {
    assert |Positions(m, 2)| == Bit(Has(m, 0)) + Bit(Has(m, 1));
    assert |Positions(m, 3)| == |Positions(m, 2)| + Bit(Has(m, 2));
    assert |Positions(m, 4)| == |Positions(m, 3)| + Bit(Has(m, 3));
    Bit(Has(m, 0)) + Bit(Has(m, 1)) + Bit(Has(m, 2)) + Bit(Has(m, 3))
  }

  /** The first pairs of a row name the lanes in p. */
  ghost predicate Filled(row: seq<nat>, p: seq<nat>)
    requires |row| == 8 && |p| <= 4
  {
    forall t: nat :: t < |p| ==> row[2 * t] == 2 * p[t] && row[2 * t + 1] == 2 * p[t] + 1
  }

  /** A row brings the set lanes to the front and names only lanes that exist. */
  ghost predicate RowOk(row: seq<nat>, m: nat) {
    |row| == 8 && Filled(row, Positions(m, 4)) && forall t: nat :: t < 8 ==> row[t] < 8
  }

  /** The rest of a row is the first pair, over and over. */
  ghost predicate RowDone(row: seq<nat>, m: nat) {
    && RowOk(row, m)
    && forall d: nat :: |Positions(m, 4)| <= d < 4 ==> IsFirstPair(row, d)
  }

  predicate IsFirstPair(row: seq<nat>, d: nat) {
    |row| == 8 && d < 4 && row[2 * d] == 0 && row[2 * d + 1] == 1
  }

  class PairLut {
    const idx: array<seq<nat>>

    ghost predicate Valid()
      reads idx
    {
      idx.Length == 16 && forall m: nat :: m < 16 ==> RowDone(idx[m], m)
    }

    constructor ()
      ensures Valid() && fresh(idx)
    {
      idx := new seq<nat>[16];
      new;
      for m := 0 to 16
        invariant forall l: nat :: l < m ==> RowDone(idx[l], l)
      {
        var row := FillRow(m);
        idx[m] := row;
      }
    }

    /** The pair of 32-bit lanes that hold 64-bit lane k goes to the d-th pair of the row. */
    static function Place(row: seq<nat>, d: nat, k: nat): (r: seq<nat>)
      requires |row| == 8 && d < 4
      ensures |r| == 8 && r[2 * d] == 2 * k && r[2 * d + 1] == 2 * k + 1
      ensures forall t: nat :: t < 8 && t / 2 != d ==> r[t] == row[t]
    {
      row[2 * d := 2 * k][2 * d + 1 := 2 * k + 1]
    }

    static method PlaceIfSet(row: seq<nat>, m: nat, d: nat, k: nat, ghost p: seq<nat>, ghost q: seq<nat>)
      returns (r: seq<nat>, n: nat)
      requires |row| == 8 && k < 4 && d == |p| <= k && q == p + if Has(m, k) then [k] else []
      requires Filled(row, p) && forall t: nat :: t < 8 ==> row[t] < 8
      ensures |r| == 8 && n == |q| <= k + 1 && Filled(r, q) && forall t: nat :: t < 8 ==> r[t] < 8
    {
      r, n := row, d;
      if Has(m, k) {
        r, n := Place(row, d, k), d + 1;
      }
    }

    static method FillSetLanes(row: seq<nat>, m: nat) returns (r: seq<nat>, d: nat)
      requires |row| == 8 && forall t: nat :: t < 8 ==> row[t] < 8
      ensures d == |Positions(m, 4)| && RowOk(r, m)
    {
      r, d := row, 0;
      for k := 0 to 4
        invariant |r| == 8 && d == |Positions(m, k)| && Filled(r, Positions(m, k))
        invariant forall t: nat :: t < 8 ==> r[t] < 8
      {
        r, d := PlaceIfSet(r, m, d, k, Positions(m, k), Positions(m, k + 1));
      }
    }

    static method FillRow(m: nat) returns (row: seq<nat>)
      ensures RowDone(row, m)
    {
      var d;
      row, d := FillSetLanes([0, 0, 0, 0, 0, 0, 0, 0], m);
      while d < 4
        invariant |Positions(m, 4)| <= d <= 4 && RowOk(row, m)
        invariant forall e: nat :: |Positions(m, 4)| <= e < d ==> IsFirstPair(row, e)
      {
        ghost var before := row;
        row := Place(row, d, 0);
        forall e: nat | |Positions(m, 4)| <= e < d ensures IsFirstPair(row, e) {
          assert IsFirstPair(before, e) && 2 * e / 2 == e && (2 * e + 1) / 2 == e;
        }
        d := d + 1;
      }
    }
  }

  // ---------------------------------------------------------------------------------------
  // One block against one block
  // ---------------------------------------------------------------------------------------

  /** found holds the common values of two blocks, in order. */
  ghost predicate BlockMatches(found: seq<uint64>, a: seq<uint64>, b: seq<uint64>, i: nat, j: nat)
    requires i + 4 <= |a| && j + 4 <= |b|
  {
    Ascending(found) && forall x :: x in found <==> x in a[i..i + 4] && x in b[j..j + 4]
  }

  lemma Emit(out: seq<uint64>, found: seq<uint64>, a: seq<uint64>, b: seq<uint64>, i: nat, j: nat)
    requires Ascending(a) && Ascending(b) && i + 4 <= |a| && j + 4 <= |b|
    requires Done(out, a, b, i, j) && BlockMatches(found, a, b, i, j)
    ensures Ascending(out + found)
  {
    forall p, q | 0 <= p < |out| && 0 <= q < |found| ensures out[p] < found[q] {
      assert found[q] in found;
      assert found[q] in a[i..] && found[q] in b[j..];
      EmittedIsBelow(out, a, b, i, j, out[p], found[q]);
    }
  }

  /** A common value of a finished block was either found already or is found now. */
  lemma FinishedBlock(out: seq<uint64>, found: seq<uint64>, a: seq<uint64>, b: seq<uint64>, i: nat, j: nat, x: uint64)
    requires Ascending(a) && Ascending(b) && i + 4 <= |a| && j + 4 <= |b|
    requires Done(out, a, b, i, j) && BlockMatches(found, a, b, i, j)
    requires a[i + 3] <= b[j + 3] && x in a[i..i + 4] && x in b
    ensures x in out + found
  {
    var q :| 0 <= q < |b| && b[q] == x;
    var p :| 0 <= p < 4 && a[i..i + 4][p] == x;
    assert x in a;
    if q < j {
      assert b[..j][q] == x;
    } else {
      assert q < j + 4;
      assert b[j..j + 4][q - j] == x;
    }
  }

  lemma FinishedOther(out: seq<uint64>, found: seq<uint64>, a: seq<uint64>, b: seq<uint64>, i: nat, j: nat, x: uint64)
    requires Ascending(a) && Ascending(b) && i + 4 <= |a| && j + 4 <= |b|
    requires Done(out, a, b, i, j) && BlockMatches(found, a, b, i, j)
    requires b[j + 3] <= a[i + 3] && x in b[j..j + 4] && x in a
    ensures x in out + found
  {
    assert Done(out, b, a, j, i);
    assert BlockMatches(found, b, a, j, i);
    FinishedBlock(out, found, b, a, j, i, x);
  }

  /** Advancing the side whose largest value is not above the other's. */
  lemma Advance(out: seq<uint64>, found: seq<uint64>, a: seq<uint64>, b: seq<uint64>, i: nat, j: nat, i': nat, j': nat)
    requires Ascending(a) && Ascending(b) && i + 4 <= |a| && j + 4 <= |b|
    requires Done(out, a, b, i, j) && BlockMatches(found, a, b, i, j)
    requires i' == if a[i + 3] <= b[j + 3] then i + 4 else i
    requires j' == if b[j + 3] <= a[i + 3] then j + 4 else j
    ensures Done(out + found, a, b, i', j')
  {
    Emit(out, found, a, b, i, j);
    assert a[..i + 4] == a[..i] + a[i..i + 4] && b[..j + 4] == b[..j] + b[j..j + 4];
    forall x
      ensures x in out + found <==> x in a && x in b && (x in a[..i'] || x in b[..j'])
    {
      if x in a && x in b {
        if x in a[i..i + 4] && i' == i + 4 {
          FinishedBlock(out, found, a, b, i, j, x);
        }
        if x in b[j..j + 4] && j' == j + 4 {
          FinishedOther(out, found, a, b, i, j, x);
        }
      }
    }
  }

  /** The elements of a block at the lanes in p. */
  function Gather(a: seq<uint64>, i: nat, p: seq<nat>): (found: seq<uint64>)
    requires i + 4 <= |a| && forall t :: 0 <= t < |p| ==> p[t] < 4
    ensures |found| == |p| && forall t :: 0 <= t < |p| ==> found[t] == a[i + p[t]]
  {
    seq(|p|, t requires 0 <= t < |p| => a[i + p[t]])
  }

  lemma LaneSelected(a: seq<uint64>, b: seq<uint64>, i: nat, j: nat, va: Vector, vb: Vector, cmp: Mask, k: nat)
    requires i + 4 <= |a| && j + 4 <= |b| && k < 4
    requires va == Load(a, i) && vb == Load(b, j) && AllSeen(cmp, va, vb, 4)
    ensures cmp[k] <==> a[i + k] in b[j..j + 4]
  {
    SeenAll(a[i + k], vb, k);
    assert b[j..j + 4] == [Lane(vb, 0), Lane(vb, 1), Lane(vb, 2), Lane(vb, 3)];
  }

  lemma GatherOnly(a: seq<uint64>, i: nat, p: seq<nat>, found: seq<uint64>, t: nat)
    requires i + 4 <= |a| && (forall t :: 0 <= t < |p| ==> p[t] < 4) && found == Gather(a, i, p) && t < |p|
    ensures found[t] in a[i..i + 4]
  {
    assert a[i..i + 4][p[t]] == found[t];
  }

  lemma GatherAll(a: seq<uint64>, i: nat, p: seq<nat>, found: seq<uint64>, k: nat)
    requires i + 4 <= |a| && (forall t :: 0 <= t < |p| ==> p[t] < 4) && found == Gather(a, i, p) && k in p
    ensures a[i + k] in found
  {
    var t :| 0 <= t < |p| && p[t] == k;
    assert found[t] == a[i + k];
  }

  lemma GatherMatches(a: seq<uint64>, b: seq<uint64>, i: nat, j: nat, p: seq<nat>, found: seq<uint64>)
    requires Ascending(a) && i + 4 <= |a| && j + 4 <= |b|
    requires forall t, u :: 0 <= t < u < |p| ==> p[t] < p[u]
    requires forall t :: 0 <= t < |p| ==> p[t] < 4
    requires forall k: nat :: k < 4 ==> (k in p <==> a[i + k] in b[j..j + 4])
    requires found == Gather(a, i, p)
    ensures BlockMatches(found, a, b, i, j)
  {
    forall x | x in found ensures x in a[i..i + 4] && x in b[j..j + 4] {
        var t: nat :| t < |found| && found[t] == x;
      GatherOnly(a, i, p, found, t);
      assert p[t] in p;
    }
    forall x | x in a[i..i + 4] && x in b[j..j + 4] ensures x in found {
      var k: nat :| k < 4 && a[i..i + 4][k] == x;
      GatherAll(a, i, p, found, k);
    }
  }

  /** The lanes that the comparison set are the block's matches. */
  lemma MaskMatches(a: seq<uint64>, b: seq<uint64>, i: nat, j: nat, va: Vector, vb: Vector, cmp: Mask, p: seq<nat>)
    requires Ascending(a) && i + 4 <= |a| && j + 4 <= |b|
    requires va == Load(a, i) && vb == Load(b, j) && AllSeen(cmp, va, vb, 4) && p == Positions(MoveMask(cmp), 4)
    ensures forall t :: 0 <= t < |p| ==> p[t] < 4
    ensures BlockMatches(Gather(a, i, p), a, b, i, j)
  {
    PositionsExact(MoveMask(cmp), 4);
    forall k: nat | k < 4 ensures k in p <==> a[i + k] in b[j..j + 4] {
      MaskBits(cmp, k);
      LaneSelected(a, b, i, j, va, vb, cmp, k);
    }
    GatherMatches(a, b, i, j, p, Gather(a, i, p));
  }

  /** _mm256_storeu_si256 */
  method Store(buf: array<uint64>, at: nat, v: Vector)
    requires at + 4 <= buf.Length
    modifies buf
    ensures buf[..at] == old(buf[..at])
    ensures forall k: nat :: k < 4 ==> buf[at + k] == Lane(v, k)
  {
    buf[at] := Lane(v, 0);
    buf[at + 1] := Lane(v, 1);
    buf[at + 2] := Lane(v, 2);
    buf[at + 3] := Lane(v, 3);
  }

  lemma PermutedLane(v: Vector, row: seq<nat>, t: nat, l: nat)
    requires |row| == 8 && t < 4 && l < 4 && row[2 * t] == 2 * l && row[2 * t + 1] == 2 * l + 1
    ensures Lane(Permute(v, row), t) == Lane(v, l)
  {
  }

  lemma Packed(va: Vector, row: seq<nat>, p: seq<nat>, packed: Vector)
    requires |row| == 8 && packed == Permute(va, row)
    requires |p| <= 4 && (forall t :: 0 <= t < |p| ==> p[t] < 4) && Filled(row, p)
    ensures forall t: nat :: t < |p| ==> Lane(packed, t) == Lane(va, p[t])
  {
    forall t: nat | t < |p| ensures Lane(packed, t) == Lane(va, p[t]) {
      PermutedLane(va, row, t, p[t]);
    }
  }

  /** The set lanes of va brought to the front. */
  method Pack(lut: PairLut, va: Vector, m: nat, ghost p: seq<nat>) returns (packed: Vector)
    requires lut.Valid() && m < 16 && p == Positions(m, 4) && forall t :: 0 <= t < |p| ==> p[t] < 4
    ensures forall t: nat :: t < |p| ==> Lane(packed, t) == Lane(va, p[t])
  {
    assert RowDone(lut.idx[m], m);
    var perm := lut.idx[m];
    packed := Permute(va, perm);
    Packed(va, perm, p, packed);
  }

  /** A whole register is stored; the first n lanes of it count. */
  method Append(buf: array<uint64>, cnt: nat, packed: Vector, n: nat, ghost found: seq<uint64>)
    requires cnt + 4 <= buf.Length && n == |found| <= 4
    requires forall t: nat :: t < n ==> Lane(packed, t) == found[t]
    modifies buf
    ensures buf[..cnt + n] == old(buf[..cnt]) + found
  {
    Store(buf, cnt, packed);
  }

  lemma CountFits(out: seq<uint64>, a: seq<uint64>, b: seq<uint64>, i: nat, j: nat)
    requires Ascending(a) && Ascending(b) && i <= |a| && j <= |b| && Done(out, a, b, i, j)
    ensures |out| <= |a| && |out| <= |b|
  {
    NoMoreThan(out, a);
    NoMoreThan(out, b);
  }

  /** The first n lanes. */
  function Front(v: Vector, n: nat): (s: seq<uint64>)
    requires n <= 4
    ensures |s| == n
  {
    seq(n, t requires 0 <= t < n => Lane(v, t))
  }

  /** One turn of the block loop up to the advance: the matches of the two blocks, packed. */
  method MatchBlocks(lut: PairLut, a: seq<uint64>, b: seq<uint64>, i: nat, j: nat) returns (packed: Vector, n: nat)
    requires lut.Valid() && Ascending(a) && i + 4 <= |a| && j + 4 <= |b|
    ensures n <= 4 && BlockMatches(Front(packed, n), a, b, i, j)
  {
    var va, vb := Load(a, i), Load(b, j);
    var cmp := AllPairs(va, vb);
    var m := MoveMask(cmp);
    ghost var p := Positions(m, 4);
    MaskMatches(a, b, i, j, va, vb, cmp, p);
    packed := Pack(lut, va, m, p);
    n := PopCount(m);
    assert Front(packed, n) == Gather(a, i, p);
  }

  /** intersect_u64_avx2. The buffer of min(na, nb) + 4 elements never has to grow. */
  method Vectorized(lut: PairLut, a: seq<uint64>, b: seq<uint64>) returns (out: seq<uint64>)
    requires lut.Valid() && Ascending(a) && Ascending(b)
    ensures IsIntersection(out, a, b)
  {
    var buf := new uint64[(if |a| < |b| then |a| else |b|) + 4];
    var cnt: nat := 0;
    var i: nat, j: nat := 0, 0;
    while i + 4 <= |a| && j + 4 <= |b|
      invariant i <= |a| && j <= |b| && cnt <= buf.Length && lut.Valid()
      invariant Done(buf[..cnt], a, b, i, j)
      decreases |a| - i + |b| - j
    {
      ghost var before := buf[..cnt];
      CountFits(before, a, b, i, j);
      var packed, n := MatchBlocks(lut, a, b, i, j);
      ghost var found := Front(packed, n);
      assert cnt + 4 <= buf.Length;  // the guard that would grow the buffer is never taken
      Append(buf, cnt, packed, n, found);
      cnt := cnt + n;
      var amax, bmax := a[i + 3], b[j + 3];
      var i', j' := if amax <= bmax then i + 4 else i, if bmax <= amax then j + 4 else j;
      Advance(before, found, a, b, i, j, i', j');
      i, j := i', j';
    }
    out := MergeFrom(a, b, i, j, buf[..cnt]);
  }
}
