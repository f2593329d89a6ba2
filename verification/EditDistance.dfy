/** The recurrence of Levenshtein distance and how neighbouring cells of its matrix relate. */
module EditDistance {

  function Min3(x: nat, y: nat, z: nat): (m: nat)
    ensures m <= x && m <= y && m <= z && (m == x || m == y || m == z)
  {
    if x <= y && x <= z then x else if y <= z then y else z
  }

  /** The cost of a diagonal step into cell (i + 1, j + 1). */
  function Cost<T(==)>(a: seq<T>, i: nat, b: seq<T>, j: nat): nat
    requires i < |a| && j < |b|
  {
    if a[i] == b[j] then 0 else 1
  }

  /** Cell (i, j) of the dynamic-programming matrix: the distance of a[..i] and b[..j]. */
  function D<T(==)>(a: seq<T>, i: nat, b: seq<T>, j: nat): nat
    requires i <= |a| && j <= |b|
    decreases i + j, 1
  {
    if i == 0 then j else if j == 0 then i else InnerCell(a, i, b, j)
  }

  function InnerCell<T(==)>(a: seq<T>, i: nat, b: seq<T>, j: nat): nat
    requires 0 < i <= |a| && 0 < j <= |b|
    decreases i + j, 0
  {
    Min3(D(a, i - 1, b, j) + 1,
         D(a, i, b, j - 1) + 1,
         D(a, i - 1, b, j - 1) + Cost(a, i - 1, b, j - 1))
  }

  function Distance<T(==)>(a: seq<T>, b: seq<T>): nat {
    D(a, |a|, b, |b|)
  }

  // ---------------------------------------------------------------------------------------
  // Differences of neighbouring cells
  // ---------------------------------------------------------------------------------------

  /** Moving down one row changes the distance by at most one. */
  lemma {:induction false} VerticalStep<T>(a: seq<T>, i: nat, b: seq<T>, j: nat)
    requires i < |a| && j <= |b|
    ensures -1 <= D(a, i + 1, b, j) - D(a, i, b, j) <= 1
  {
    if j > 0 {
      VerticalStep(a, i, b, j - 1);
    }
  }

  /** Moving right one column changes the distance by at most one. */
  lemma {:induction false} HorizontalStep<T>(a: seq<T>, i: nat, b: seq<T>, j: nat)
    requires i <= |a| && j < |b|
    ensures -1 <= D(a, i, b, j + 1) - D(a, i, b, j) <= 1
  {
    if i > 0 {
      HorizontalStep(a, i - 1, b, j);
    }
  }

  /** A diagonal step adds nothing or one. */
  lemma DiagonalStep<T>(a: seq<T>, i: nat, b: seq<T>, j: nat)
    requires i < |a| && j < |b|
    ensures 0 <= D(a, i + 1, b, j + 1) - D(a, i, b, j) <= 1
  {
    VerticalStep(a, i, b, j);
    HorizontalStep(a, i, b, j);
  }

  /** A cell is at most one above its upper and left neighbours and its diagonal one plus the cost. */
  lemma CellBounds<T>(a: seq<T>, i: nat, b: seq<T>, j: nat)
    requires i <= |a| && j <= |b|
    ensures i > 0 ==> D(a, i, b, j) <= D(a, i - 1, b, j) + 1
    ensures j > 0 ==> D(a, i, b, j) <= D(a, i, b, j - 1) + 1
    ensures i > 0 && j > 0 && a[i - 1] == b[j - 1] ==> D(a, i, b, j) <= D(a, i - 1, b, j - 1)
    ensures i > 0 && j > 0 ==> D(a, i, b, j) <= D(a, i - 1, b, j - 1) + 1
  {
  }

  /** A match costs nothing on the diagonal, and a diagonal step is free exactly when the two bytes
      match or one of the other two corners is already one less. */
  lemma DiagonalFree<T>(a: seq<T>, i: nat, b: seq<T>, j: nat)
    requires i < |a| && j < |b|
    ensures D(a, i + 1, b, j + 1) == D(a, i, b, j) <==>
            a[i] == b[j] || D(a, i + 1, b, j) + 1 == D(a, i, b, j) || D(a, i, b, j + 1) + 1 == D(a, i, b, j)
  {
    VerticalStep(a, i, b, j);
    HorizontalStep(a, i, b, j);
  }

  /** The distance never falls by more than one for each column still to come. */
  lemma {:induction false} ColumnsBound<T>(a: seq<T>, i: nat, b: seq<T>, j: nat, j': nat)
    requires i <= |a| && j <= j' <= |b|
    ensures D(a, i, b, j) <= D(a, i, b, j') + (j' - j)
    decreases j' - j
  {
    if j < j' {
      HorizontalStep(a, i, b, j);
      ColumnsBound(a, i, b, j + 1, j');
    }
  }

  // ---------------------------------------------------------------------------------------
  // Only the prefixes count
  // ---------------------------------------------------------------------------------------

  /** Bytes beyond row i or column j do not count. */
  lemma {:induction false} SuffixesIrrelevant<T>(a: seq<T>, s: seq<T>, i: nat, b: seq<T>, u: seq<T>, j: nat)
    requires i <= |a| && j <= |b|
    ensures D(a + s, i, b + u, j) == D(a, i, b, j)
    decreases i + j
  {
    if i > 0 && j > 0 {
      SuffixesIrrelevant(a, s, i - 1, b, u, j);
      SuffixesIrrelevant(a, s, i, b, u, j - 1);
      SuffixesIrrelevant(a, s, i - 1, b, u, j - 1);
    }
  }

  lemma {:induction false} Symmetric<T>(a: seq<T>, i: nat, b: seq<T>, j: nat)
    requires i <= |a| && j <= |b|
    ensures D(a, i, b, j) == D(b, j, a, i)
    decreases i + j
  {
    if i > 0 && j > 0 {
      Symmetric(a, i - 1, b, j);
      Symmetric(a, i, b, j - 1);
      Symmetric(a, i - 1, b, j - 1);
    }
  }

  lemma {:induction false} LengthBounds<T>(a: seq<T>, i: nat, b: seq<T>, j: nat)
    requires i <= |a| && j <= |b|
    ensures i <= D(a, i, b, j) + j && j <= D(a, i, b, j) + i
    decreases i + j
  {
    if i > 0 && j > 0 {
      LengthBounds(a, i - 1, b, j);
      LengthBounds(a, i, b, j - 1);
      LengthBounds(a, i - 1, b, j - 1);
    }
  }

  lemma {:induction false} AtMostBothLengths<T>(a: seq<T>, i: nat, b: seq<T>, j: nat)
    requires i <= |a| && j <= |b|
    ensures D(a, i, b, j) <= i + j
    decreases i
  {
    if i > 0 && j > 0 {
      AtMostBothLengths(a, i - 1, b, j);
    }
  }

  lemma {:induction false} AtMostLongerLength<T>(a: seq<T>, i: nat, b: seq<T>, j: nat)
    requires i <= |a| && j <= |b|
    ensures D(a, i, b, j) <= i || D(a, i, b, j) <= j
    decreases i
  {
    if i > 0 && j > 0 {
      AtMostLongerLength(a, i - 1, b, j - 1);
      CellBounds(a, i, b, j);
    }
  }
}
