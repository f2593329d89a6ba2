/**
  What the parameters of the score mean (include/bitcask/bm25_kernels.hpp 54-75): the equation it solves, how far the
  length of a document counts, and between which bounds a score lies.
 */
module Bm25Laws {
  import opened Bm25

  lemma QuotientIs(x: real, y: real, q: real)
    requires y > 0.0 && q == x / y
    ensures q * y == x
  {
  }

  /** The denominator, multiplied by the average length. */
  lemma LongDenominator(tf: real, dl: real, p: Params, avgdl: real, total: real)
    requires avgdl > 0.0 && total == tf + p.k1 * (1.0 - p.b + p.b * dl / avgdl)
    ensures total * avgdl == tf * avgdl + p.k1 * ((1.0 - p.b) * avgdl + p.b * dl)
  {
    var share := p.b * dl / avgdl;
    QuotientIs(p.b * dl, avgdl, share);
    Distribute(tf, p.k1, 1.0 - p.b, share, avgdl, p.b * dl);
  }

  lemma Distribute(tf: real, k1: real, rest: real, share: real, avgdl: real, length: real)
    requires share * avgdl == length
    ensures (tf + k1 * (rest + share)) * avgdl == tf * avgdl + k1 * (rest * avgdl + length)
  {
    assert k1 * (rest + share) * avgdl == k1 * ((rest + share) * avgdl);
    assert (rest + share) * avgdl == rest * avgdl + share * avgdl;
  }

  /** The score is the one number for which this holds: what b leaves of the average length and its part of the
      document's, weighted by k1, against the occurrences. */
  lemma ScoreEquation(tf: nat, dl: nat, p: Params, idf: real, avgdl: real)
    requires Admissible(p, idf, avgdl) && (tf > 0 || dl > 0)
    ensures (tf as real) + Norm(dl, p, avgdl) > 0.0
    ensures (Score(tf, dl, p, idf, avgdl) - idf * p.delta)
            * ((tf as real) * avgdl + p.k1 * ((1.0 - p.b) * avgdl + p.b * (dl as real)))
         == idf * (tf as real) * (p.k1 + 1.0) * avgdl
  {
    DenominatorPositive(tf, dl, p, idf, avgdl);
    var t := tf as real;
    var total := t + Norm(dl, p, avgdl);
    var q := t * (p.k1 + 1.0) / total;
    QuotientIs(t * (p.k1 + 1.0), total, q);
    LongDenominator(t, dl as real, p, avgdl, total);
    Equation(idf, q, p.delta, total, avgdl, t, p.k1 + 1.0);
  }

  lemma Equation(idf: real, q: real, delta: real, total: real, avgdl: real, t: real, c: real)
    requires q * total == t * c
    ensures (idf * (q + delta) - idf * delta) * (total * avgdl) == idf * t * c * avgdl
  {
    assert idf * (q + delta) - idf * delta == idf * q;
    assert idf * q * (total * avgdl) == idf * (q * total) * avgdl;
    assert idf * (t * c) == idf * t * c;
  }

  /** Two numbers that solve it are equal. */
  lemma OneSolution(x: real, y: real, z: real, r: real)
    requires z > 0.0 && x * z == r && y * z == r
    ensures x == y
  {
    assert (x - y) * z == 0.0;
    if x < y {
      PositiveProduct(y - x, z);
    } else if y < x {
      PositiveProduct(x - y, z);
    }
  }

  /** What the occurrences bring, apart from delta, and what it is weighed against. */
  lemma Weighed(tf: nat, dl: nat, p: Params, idf: real, avgdl: real) returns (x: real, against: real)
    requires Admissible(p, idf, avgdl) && (tf > 0 || dl > 0)
    ensures (tf as real) + Norm(dl, p, avgdl) > 0.0
    ensures x == Score(tf, dl, p, idf, avgdl) - idf * p.delta
    ensures against == p.k1 * ((1.0 - p.b) * avgdl + p.b * (dl as real)) && (tf as real) * avgdl + against > 0.0
    ensures x * ((tf as real) * avgdl + against) == idf * (tf as real) * (p.k1 + 1.0) * avgdl
  {
    ScoreEquation(tf, dl, p, idf, avgdl);
    x := Score(tf, dl, p, idf, avgdl) - idf * p.delta;
    against := p.k1 * ((1.0 - p.b) * avgdl + p.b * (dl as real));
    var total := (tf as real) + Norm(dl, p, avgdl);
    LongDenominator(tf as real, dl as real, p, avgdl, total);
    PositiveProduct(total, avgdl);
  }

  /** With b at 0 the length of the document does not count. */
  lemma LengthDoesNotCount(tf: nat, dl: nat, dl': nat, p: Params, idf: real, avgdl: real)
    requires Admissible(p, idf, avgdl) && p.b == 0.0 && (tf > 0 || (dl > 0 && dl' > 0))
    ensures (tf as real) + Norm(dl, p, avgdl) > 0.0 && (tf as real) + Norm(dl', p, avgdl) > 0.0
    ensures Score(tf, dl, p, idf, avgdl) == Score(tf, dl', p, idf, avgdl)
  {
    var x, a := Weighed(tf, dl, p, idf, avgdl);
    var y, a' := Weighed(tf, dl', p, idf, avgdl);
    NoLength(p, dl as real, avgdl, a);
    NoLength(p, dl' as real, avgdl, a');
    OneSolution(x, y, (tf as real) * avgdl + a, idf * (tf as real) * (p.k1 + 1.0) * avgdl);
  }

  lemma NoLength(p: Params, dl: real, avgdl: real, a: real)
    requires p.b == 0.0 && a == p.k1 * ((1.0 - p.b) * avgdl + p.b * dl)
    ensures a == p.k1 * avgdl
  {
    assert p.b * dl == 0.0;
  }

  /** With b at 1 only the share of the occurrences in the document counts. */
  lemma OnlyTheShareCounts(tf: nat, dl: nat, c: nat, p: Params, idf: real, avgdl: real)
    requires Admissible(p, idf, avgdl) && p.b == 1.0 && (tf > 0 || dl > 0) && c > 0
    ensures ((c * tf) as real) + Norm(c * dl, p, avgdl) > 0.0 && (tf as real) + Norm(dl, p, avgdl) > 0.0
    ensures Score(c * tf, c * dl, p, idf, avgdl) == Score(tf, dl, p, idf, avgdl)
  {
    Products(c, tf, dl);
    var x, a := Weighed(tf, dl, p, idf, avgdl);
    var y, a' := Weighed(c * tf, c * dl, p, idf, avgdl);
    var t, f := tf as real, c as real;
    Scaled(p, t, dl as real, f, avgdl, a, a', idf, y);
    OneSolution(x, y, t * avgdl + a, idf * t * (p.k1 + 1.0) * avgdl);
  }

  lemma Products(c: nat, tf: nat, dl: nat)
    requires c > 0 && (tf > 0 || dl > 0)
    ensures c * tf > 0 || c * dl > 0
    ensures (c * tf) as real == (c as real) * (tf as real) && (c * dl) as real == (c as real) * (dl as real)
  {
    if tf > 0 {
      assert c * tf >= c;
    } else {
      assert c * dl >= c;
    }
  }

  lemma Scaled(p: Params, t: real, dl: real, f: real, avgdl: real, a: real, a': real, idf: real, y: real)
    requires p.b == 1.0 && f > 0.0 && a == p.k1 * ((1.0 - p.b) * avgdl + p.b * dl)
    requires a' == p.k1 * ((1.0 - p.b) * avgdl + p.b * (f * dl))
    requires y * ((f * t) * avgdl + a') == idf * (f * t) * (p.k1 + 1.0) * avgdl
    ensures y * (t * avgdl + a) == idf * t * (p.k1 + 1.0) * avgdl
  {
    assert a == p.k1 * dl && a' == f * a;
    assert (f * t) * avgdl + a' == f * (t * avgdl + a);
    Cancel(f, y * (t * avgdl + a), idf * t * (p.k1 + 1.0) * avgdl);
  }

  lemma Cancel(f: real, x: real, y: real)
    requires f > 0.0 && f * x == f * y
    ensures x == y
  {
    OneSolution(x, y, f, f * y);
  }

  /** In a document of average length one occurrence scores exactly the worth of the term, and delta times as much
      on top. */
  lemma OnceInAverageLength(dl: nat, p: Params, idf: real, avgdl: real)
    requires Admissible(p, idf, avgdl) && dl as real == avgdl
    ensures 1.0 + Norm(dl, p, avgdl) > 0.0 && Score(1, dl, p, idf, avgdl) == idf * (1.0 + p.delta)
  {
    var x, a := Weighed(1, dl, p, idf, avgdl);
    AverageLength(p, avgdl, a);
    PositiveProduct(p.k1 + 1.0, avgdl);
    OneSolution(x, idf, (p.k1 + 1.0) * avgdl, idf * (p.k1 + 1.0) * avgdl);
  }

  lemma AverageLength(p: Params, avgdl: real, a: real)
    requires a == p.k1 * ((1.0 - p.b) * avgdl + p.b * avgdl)
    ensures avgdl + a == (p.k1 + 1.0) * avgdl
  {
    assert (1.0 - p.b) * avgdl + p.b * avgdl == avgdl;
  }

  /** No occurrence scores delta alone. */
  lemma NoOccurrence(dl: nat, p: Params, idf: real, avgdl: real)
    requires Admissible(p, idf, avgdl) && dl > 0
    ensures Norm(dl, p, avgdl) > 0.0 && Score(0, dl, p, idf, avgdl) == idf * p.delta
  {
    var x, a := Weighed(0, dl, p, idf, avgdl);
    OneSolution(x, 0.0, 0.0 * avgdl + a, 0.0);
  }

  lemma AgainstIsPositive(p: Params, dl: real, avgdl: real)
    requires p.k1 > 0.0 && 0.0 <= p.b <= 1.0 && dl > 0.0 && avgdl > 0.0
    ensures p.k1 * ((1.0 - p.b) * avgdl + p.b * dl) > 0.0
  {
    if p.b == 0.0 {
      assert (1.0 - p.b) * avgdl == avgdl && p.b * dl == 0.0;
    } else {
      PositiveProduct(p.b, dl);
      MultiplyMonotone(0.0, avgdl, 1.0 - p.b);
    }
    PositiveProduct(p.k1, (1.0 - p.b) * avgdl + p.b * dl);
  }

  /** However often a term occurs, it scores less than its worth times k1 + 1 + delta. */
  lemma StaysBelow(tf: nat, dl: nat, p: Params, idf: real, avgdl: real)
    requires Admissible(p, idf, avgdl) && dl > 0 && idf > 0.0
    ensures (tf as real) + Norm(dl, p, avgdl) > 0.0
    ensures Score(tf, dl, p, idf, avgdl) < idf * (p.k1 + 1.0 + p.delta)
  {
    var x, a := Weighed(tf, dl, p, idf, avgdl);
    var most, w := idf * (p.k1 + 1.0), (tf as real) * avgdl;
    AgainstIsPositive(p, dl as real, avgdl);
    PositiveProduct(idf, p.k1 + 1.0);
    Below(x, most, w, a);
  }

  lemma Below(x: real, most: real, w: real, a: real)
    requires x * (w + a) == most * w && most > 0.0 && w + a > 0.0 && a > 0.0
    ensures x < most
  {
    PositiveProduct(most, a);
    assert most * (w + a) == most * w + most * a;
    if x >= most {
      MultiplyMonotone(most, x, w + a);
    }
  }

  /** And it comes as near to that as one likes. */
  lemma ComesNear(dl: nat, p: Params, idf: real, avgdl: real, gap: real) returns (tf: nat)
    requires Admissible(p, idf, avgdl) && dl > 0 && idf > 0.0 && gap > 0.0
    ensures (tf as real) + Norm(dl, p, avgdl) > 0.0
    ensures Score(tf, dl, p, idf, avgdl) > idf * (p.k1 + 1.0 + p.delta) - gap
  {
    var most, against := idf * (p.k1 + 1.0), p.k1 * ((1.0 - p.b) * avgdl + p.b * (dl as real));
    AgainstIsPositive(p, dl as real, avgdl);
    PositiveProduct(idf, p.k1 + 1.0);
    PositiveProduct(most, against);
    PositiveProduct(gap, avgdl);
    var bound := most * against / (gap * avgdl);
    PositiveQuotient(most * against, gap * avgdl);
    tf := bound.Floor + 1;
    var x, a := Weighed(tf, dl, p, idf, avgdl);
    Enough(tf as real, bound, most * against, gap, avgdl);
    Near(x, most, (tf as real) * avgdl, a, gap);
  }

  lemma Enough(t: real, bound: real, product: real, gap: real, avgdl: real)
    requires gap > 0.0 && avgdl > 0.0 && gap * avgdl > 0.0 && bound == product / (gap * avgdl) && t > bound
    ensures gap * (t * avgdl) > product
  {
    QuotientIs(product, gap * avgdl, bound);
    PositiveProduct(t - bound, gap * avgdl);
    assert gap * (t * avgdl) == t * (gap * avgdl);
  }

  lemma Near(x: real, most: real, w: real, a: real, gap: real)
    requires x * (w + a) == most * w && w + a > 0.0 && a > 0.0 && gap > 0.0 && gap * w > most * a
    ensures x > most - gap
  {
    PositiveProduct(gap, a);
    assert (most - gap) * (w + a) == most * w + most * a - gap * w - gap * a;
    if x <= most - gap {
      MultiplyMonotone(x, most - gap, w + a);
    }
  }
}
