/**
  The BM25 contribution of one posting (include/bitcask/bm25_kernels.hpp) over the real numbers, and why
  the numbers a block stores bound every score in it.
 */
module Bm25 {
  import opened Bytes
  import opened PostingRows

  datatype Params = Params(k1: real, b: real, delta: real)

  ghost predicate Admissible(p: Params, idf: real, avgdl: real) {
    p.k1 > 0.0 && 0.0 <= p.b <= 1.0 && p.delta >= 0.0 && idf >= 0.0 && avgdl > 0.0
  }

  /** What a document of length dl adds to the denominator. */
  function Norm(dl: nat, p: Params, avgdl: real): real
    requires avgdl > 0.0
  {
    p.k1 * (1.0 - p.b + p.b * (dl as real) / avgdl)
  }

  lemma PositiveProduct(x: real, y: real)
    requires x > 0.0 && y > 0.0
    ensures x * y > 0.0
  {
  }

  lemma PositiveQuotient(x: real, y: real)
    requires x > 0.0 && y > 0.0
    ensures x / y > 0.0
  {
    var q := x / y;
    assert q * y == x;
    if q <= 0.0 {
      MultiplyMonotone(q, 0.0, y);
    }
  }

  lemma QuotientOfZero(x: real, y: real)
    requires x == 0.0 && y > 0.0
    ensures x / y == 0.0
  {
  }

  /** The factor of k1: a share of the average length and what b leaves of 1. */
  lemma FactorPositive(b: real, length: real, product: real, avgdl: real, share: real)
    requires 0.0 <= b <= 1.0 && length > 0.0 && avgdl > 0.0
    requires product == b * length && share == product / avgdl
    ensures 1.0 - b + share > 0.0
  {
    if b == 0.0 {
      assert product == 0.0;
      QuotientOfZero(product, avgdl);
    } else {
      PositiveProduct(b, length);
      PositiveQuotient(product, avgdl);
    }
  }

  lemma NormPositive(dl: nat, p: Params, idf: real, avgdl: real)
    requires Admissible(p, idf, avgdl) && dl > 0
    ensures Norm(dl, p, avgdl) > 0.0
  {
    var product := p.b * (dl as real);
    var share := product / avgdl;
    FactorPositive(p.b, dl as real, product, avgdl, share);
    var factor := 1.0 - p.b + share;
    PositiveProduct(p.k1, factor);
    assert Norm(dl, p, avgdl) == p.k1 * factor;
  }

  /** A posting counts at least one occurrence, so even an unknown length leaves something to divide by. */
  lemma DenominatorPositive(tf: nat, dl: nat, p: Params, idf: real, avgdl: real)
    requires Admissible(p, idf, avgdl) && (tf > 0 || dl > 0)
    ensures (tf as real) + Norm(dl, p, avgdl) > 0.0
  {
    if dl > 0 {
      NormPositive(dl, p, idf, avgdl);
    } else {
      assert p.b * (dl as real) == 0.0;
      QuotientOfZero(p.b * (dl as real), avgdl);
      assert p.k1 * (1.0 - p.b) >= 0.0;
    }
  }

  lemma NormMonotone(dl: nat, dl': nat, p: Params, idf: real, avgdl: real)
    requires Admissible(p, idf, avgdl) && dl <= dl'
    ensures Norm(dl, p, avgdl) <= Norm(dl', p, avgdl)
  {
    var x, y := p.b * (dl as real), p.b * (dl' as real);
    assert x <= y;
    DivideMonotone(x, y, avgdl);
    MultiplyMonotone(1.0 - p.b + x / avgdl, 1.0 - p.b + y / avgdl, p.k1);
  }

  lemma DivideMonotone(x: real, y: real, z: real)
    requires x <= y && z > 0.0
    ensures x / z <= y / z
  {
    assert y / z - x / z == (y - x) / z;
    assert (y - x) / z >= 0.0;
  }

  lemma MultiplyMonotone(x: real, y: real, z: real)
    requires x <= y && z >= 0.0
    ensures z * x <= z * y
  {
    assert z * (y - x) >= 0.0;
  }

  /** idf * (tf * (k1 + 1) / (tf + norm) + delta) */
  function Contribution(tf: nat, norm: real, p: Params, idf: real): real
    requires (tf as real) + norm > 0.0
  {
    idf * ((tf as real) * (p.k1 + 1.0) / ((tf as real) + norm) + p.delta)
  }

  lemma CrossProducts(t: real, u: real, m: real, n: real)
    requires 0.0 <= t <= u && 0.0 < m <= n
    ensures t * (u + m) <= u * (t + n)
  {
    MultiplyMonotone(m, n, t);
    MultiplyMonotone(t, u, n);
    assert t * (u + m) == t * u + t * m && u * (t + n) == t * u + n * u;
  }

  lemma CrossDivide(a: real, b: real, c: real, d: real)
    requires b > 0.0 && d > 0.0 && a * d <= c * b
    ensures a / b <= c / d
  {
    assert c / d - a / b == (c * b - a * d) / (b * d);
  }

  /** More occurrences in a shorter document never score less. */
  lemma SaturationMonotone(t: real, u: real, m: real, n: real)
    requires 0.0 <= t <= u && 0.0 < m <= n
    ensures t / (t + n) <= u / (u + m)
  {
    CrossProducts(t, u, m, n);
    CrossDivide(t, t + n, u, u + m);
  }

  lemma ContributionMonotone(tf: nat, tf': nat, norm: real, norm': real, p: Params, idf: real, avgdl: real)
    requires Admissible(p, idf, avgdl) && tf <= tf' && 0.0 < norm' <= norm
    ensures Contribution(tf, norm, p, idf) <= Contribution(tf', norm', p, idf)
  {
    var t, u, c := tf as real, tf' as real, p.k1 + 1.0;
    SaturationMonotone(t, u, norm', norm);
    MultiplyMonotone(t / (t + norm), u / (u + norm'), c);
    assert t * c / (t + norm) == c * (t / (t + norm));
    assert u * c / (u + norm') == c * (u / (u + norm'));
    MultiplyMonotone(t * c / (t + norm) + p.delta, u * c / (u + norm') + p.delta, idf);
  }

  lemma ContributionNonNegative(tf: nat, norm: real, p: Params, idf: real, avgdl: real)
    requires Admissible(p, idf, avgdl) && norm > 0.0
    ensures Contribution(tf, norm, p, idf) >= 0.0
  {
    var t, c := tf as real, p.k1 + 1.0;
    assert t * c >= 0.0;
    assert t * c / (t + norm) >= 0.0;
  }

  /** The score of one posting. */
  function Score(tf: nat, dl: nat, p: Params, idf: real, avgdl: real): real
    requires avgdl > 0.0 && (tf as real) + Norm(dl, p, avgdl) > 0.0
  {
    Contribution(tf, Norm(dl, p, avgdl), p, idf)
  }

  lemma ScoreMonotone(tf: nat, dl: nat, tf': nat, dl': nat, p: Params, idf: real, avgdl: real)
    requires Admissible(p, idf, avgdl) && tf <= tf' && 0 < dl' <= dl
    ensures Norm(dl, p, avgdl) > 0.0 && Norm(dl', p, avgdl) > 0.0
    ensures 0.0 <= Score(tf, dl, p, idf, avgdl) <= Score(tf', dl', p, idf, avgdl)
  {
    NormPositive(dl, p, idf, avgdl);
    NormPositive(dl', p, idf, avgdl);
    NormMonotone(dl', dl, p, idf, avgdl);
    ContributionMonotone(tf, tf', Norm(dl, p, avgdl), Norm(dl', p, avgdl), p, idf, avgdl);
    ContributionNonNegative(tf, Norm(dl, p, avgdl), p, idf, avgdl);
  }

  lemma ContributionPositive(t: real, c: real, total: real, delta: real, idf: real, product: real, share: real)
    requires t >= 0.0 && c > 0.0 && total > 0.0 && delta >= 0.0 && idf >= 0.0
    requires product == t * c && share == product / total
    ensures idf * (share + delta) > 0.0 <==> idf > 0.0 && (t > 0.0 || delta > 0.0)
  {
    if t == 0.0 {
      assert product == 0.0;
      QuotientOfZero(product, total);
    } else {
      PositiveProduct(t, c);
      PositiveQuotient(product, total);
    }
    if idf > 0.0 && share + delta > 0.0 {
      PositiveProduct(idf, share + delta);
    }
  }

  lemma ContributionIsPositive(tf: nat, norm: real, p: Params, idf: real)
    requires p.k1 > 0.0 && p.delta >= 0.0 && idf >= 0.0 && norm > 0.0
    ensures Contribution(tf, norm, p, idf) > 0.0 <==> idf > 0.0 && (tf > 0 || p.delta > 0.0)
  {
    var t, c := tf as real, p.k1 + 1.0;
    var product, total := t * c, t + norm;
    var share := product / total;
    ContributionPositive(t, c, total, p.delta, idf, product, share);
  }

  /** A posting scores anything at all exactly if its term is not worthless and the posting or delta gives something. */
  lemma PositiveExactly(tf: nat, dl: nat, p: Params, idf: real, avgdl: real)
    requires Admissible(p, idf, avgdl) && dl > 0
    ensures Norm(dl, p, avgdl) > 0.0
    ensures Score(tf, dl, p, idf, avgdl) > 0.0 <==> idf > 0.0 && (tf > 0 || p.delta > 0.0)
  {
    NormPositive(dl, p, idf, avgdl);
    ContributionIsPositive(tf, Norm(dl, p, avgdl), p, idf);
  }

  /** No posting of a block scores above the formula at what the block stores, as long as its document
      length is known. */
  lemma BlockBound(ords: seq<uint64>, tfs: seq<uint32>, dls: seq<uint32>, start: nat, end: nat, i: nat,
                   p: Params, idf: real, avgdl: real)
    requires |ords| == |tfs| == |dls| && start <= i < end <= |ords| && dls[i] > 0
    requires Admissible(p, idf, avgdl)
    ensures var blk := BlockOf(ords, tfs, dls, start, end);
      && blk.minDl > 0 && Norm(dls[i], p, avgdl) > 0.0 && Norm(blk.minDl, p, avgdl) > 0.0
      && Score(tfs[i], dls[i], p, idf, avgdl) <= Score(blk.maxTf, blk.minDl, p, idf, avgdl)
  {
    MaxIsLargest(tfs[start..end]);
    MinKnownIsSmallest(dls[start..end]);
    assert tfs[start..end][i - start] == tfs[i] && dls[start..end][i - start] == dls[i];
    var blk := BlockOf(ords, tfs, dls, start, end);
    ScoreMonotone(tfs[i], dls[i], blk.maxTf, blk.minDl, p, idf, avgdl);
  }

  /** bm25_score_scalar, with the constants that depend only on the query worked out beforehand. */
  method ScoreScalar(tfs: seq<uint32>, dls: seq<uint32>, k1Plus1: real, k1Times1MinusB: real, k1TimesB: real,
                     delta: real, idf: real, invAvgdl: real, contrib: array<real>, n: nat,
                     ghost p: Params, ghost avgdl: real)
    requires n <= |tfs| && n <= |dls| && n <= contrib.Length && Admissible(p, idf, avgdl)
    requires k1Plus1 == p.k1 + 1.0 && k1Times1MinusB == p.k1 * (1.0 - p.b) && k1TimesB == p.k1 * p.b
    requires delta == p.delta && invAvgdl == 1.0 / avgdl
    requires forall i :: 0 <= i < n ==> tfs[i] > 0 || dls[i] > 0
    modifies contrib
    ensures forall i :: 0 <= i < n ==>
              (tfs[i] as real) + Norm(dls[i], p, avgdl) > 0.0 && contrib[i] == Score(tfs[i], dls[i], p, idf, avgdl)
    ensures contrib[n..] == old(contrib[n..])
  {
    for i := 0 to n
      invariant forall k :: 0 <= k < i ==>
        (tfs[k] as real) + Norm(dls[k], p, avgdl) > 0.0 && contrib[k] == Score(tfs[k], dls[k], p, idf, avgdl)
      invariant contrib[n..] == old(contrib[n..])
    {
      var tf, dl := tfs[i] as real, dls[i] as real;
      DenominatorPositive(tfs[i], dls[i], p, idf, avgdl);
      Denominator(tf, dl, p, avgdl);
      var denom := tf + k1Times1MinusB + k1TimesB * dl * invAvgdl;
      var tfNorm := tf * k1Plus1 / denom;
      contrib[i] := idf * (tfNorm + delta);
    }
  }

  lemma Denominator(tf: real, dl: real, p: Params, avgdl: real)
    requires avgdl > 0.0
    ensures tf + p.k1 * (1.0 - p.b) + p.k1 * p.b * dl * (1.0 / avgdl)
         == tf + p.k1 * (1.0 - p.b + p.b * dl / avgdl)
  {
    assert p.b * dl / avgdl == p.b * dl * (1.0 / avgdl);
    assert p.k1 * (1.0 - p.b + p.b * dl / avgdl) == p.k1 * (1.0 - p.b) + p.k1 * (p.b * dl / avgdl);
  }
}
