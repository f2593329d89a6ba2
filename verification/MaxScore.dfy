/**
  Block-max MaxScore (src/bm25/bm25_search_impl.hpp 1463-1765), the search that is used unless it is switched off: only
  lists that can still bring a document among the best k lead the search, the others are looked into when needed. The
  result is again that of scoring everything.
 */
module MaxScore {
  import opened Bytes
  import opened TopK
  import opened WandLists
  import Wand
  import PostingRows
  import Bm25

  // ---------------------------------------------------------------------------------------
  // Sums in another order
  // ---------------------------------------------------------------------------------------

  ghost function Sum(xs: seq<real>): real
    decreases |xs|
  {
    if xs == [] then 0.0 else Sum(xs[..|xs| - 1]) + xs[|xs| - 1]
  }

  lemma SumSnoc(xs: seq<real>, x: real)
    ensures Sum(xs + [x]) == Sum(xs) + x
  {
    assert (xs + [x])[..|xs|] == xs;
  }

  /** The numbers at the places of P, among the first n. */
  ghost function SumAt(xs: seq<real>, P: set<nat>, n: nat): real
    requires n <= |xs|
  {
    if n == 0 then 0.0 else SumAt(xs, P, n - 1) + if n - 1 in P then xs[n - 1] else 0.0
  }

  lemma {:induction false} SumAtNone(xs: seq<real>, n: nat)
    requires n <= |xs|
    ensures SumAt(xs, {}, n) == 0.0
  {
    if n > 0 {
      SumAtNone(xs, n - 1);
    }
  }

  lemma {:induction false} SumAtAdds(xs: seq<real>, P: set<nat>, x: nat, n: nat)
    requires n <= |xs| && x < |xs| && x !in P
    ensures SumAt(xs, P + {x}, n) == SumAt(xs, P, n) + if x < n then xs[x] else 0.0
  {
    if n > 0 {
      SumAtAdds(xs, P, x, n - 1);
    }
  }

  /** Bounds listed in an order: together they are not below the numbers at those places. */
  lemma {:induction false} InOrder(xs: seq<real>, order: seq<nat>, cs: seq<real>, j: nat)
    requires Wand.IsPerm(order, |xs|) && j <= |xs| == |cs| && forall i :: 0 <= i < j ==> xs[order[i]] <= cs[i]
    ensures SumAt(xs, Wand.Front(order, j), |xs|) <= Sum(cs[..j])
    decreases j
  {
    if j == 0 {
      assert Wand.Front(order, 0) == {};
      SumAtNone(xs, |xs|);
    } else {
      InOrder(xs, order, cs, j - 1);
      var x := order[j - 1];
      assert order[..j] == order[..j - 1] + [x] && cs[..j] == cs[..j - 1] + [cs[j - 1]];
      assert Wand.Front(order, j) == Wand.Front(order, j - 1) + {x};
      SumAtAdds(xs, Wand.Front(order, j - 1), x, |xs|);
      SumSnoc(cs[..j - 1], cs[j - 1]);
    }
  }

  ghost function Postings(terms: seq<Term>, d: uint64): seq<real>
    requires ValidTerms(terms)
  {
    seq(|terms|, t requires 0 <= t < |terms| => Posting(terms[t], d))
  }

  lemma {:induction false} FullIsSum(terms: seq<Term>, d: uint64, P: set<nat>, n: nat)
    requires ValidTerms(terms) && n <= |terms| && forall t: nat :: t < n ==> t in P
    ensures Full(terms, d, n) == SumAt(Postings(terms, d), P, n)
  {
    if n > 0 {
      FullIsSum(terms, d, P, n - 1);
    }
  }

  /** A document does not score above the sum of bounds for its lists, in whatever order these are added up. */
  lemma FullAtMost(terms: seq<Term>, d: uint64, order: seq<nat>, cs: seq<real>)
    requires ValidTerms(terms) && Wand.IsPerm(order, |terms|) && |cs| == |terms|
    requires forall i :: 0 <= i < |terms| ==> Posting(terms[order[i]], d) <= cs[i]
    ensures Full(terms, d, |terms|) <= Sum(cs)
  {
    var n := |terms|;
    Wand.AllInFront(order);
    FullIsSum(terms, d, Wand.Front(order, n), n);
    InOrder(Postings(terms, d), order, cs, n);
    assert cs[..n] == cs;
  }

  // ---------------------------------------------------------------------------------------
  // What the search is about
  // ---------------------------------------------------------------------------------------

  /** The document occurs in a list that can score at all. */
  ghost predicate Rated(terms: seq<Term>, d: uint64) {
    exists t, i :: 0 <= t < |terms| && terms[t].listUb > 0.0 && HasRow(terms[t], d, i)
  }

  ghost predicate IsScored(terms: seq<Term>, live: uint64 -> bool, F: nat, e: Entry)
    requires ValidTerms(terms)
  {
    IsCandidate(terms, live, F, e) && Rated(terms, e.ord)
  }

  ghost function Scored(terms: seq<Term>, live: uint64 -> bool, F: nat): iset<Entry>
    requires ValidTerms(terms)
  {
    iset e: Entry | IsScored(terms, live, F, e)
  }

  ghost predicate Columns(terms: seq<Term>) {
    forall t :: 0 <= t < |terms| ==> |terms[t].contribs| == |terms[t].ords|
  }

  /** The order names lists. */
  ghost predicate Named(terms: seq<Term>, order: seq<nat>) {
    |order| == |terms| && forall i :: 0 <= i < |order| ==> order[i] < |terms|
  }

  /** The bounds of the first p lists in the order, added up. */
  ghost function Aside(terms: seq<Term>, order: seq<nat>, p: nat): real
    requires Named(terms, order) && p <= |terms|
  {
    if p == 0 then 0.0 else Aside(terms, order, p - 1) + terms[order[p - 1]].listUb
  }

  lemma {:induction false} AsideAtLeast(terms: seq<Term>, order: seq<nat>, p: nat, i: nat)
    requires ValidTerms(terms) && Named(terms, order) && i < p <= |terms|
    ensures Aside(terms, order, p) >= terms[order[i]].listUb
    decreases p
  {
    if i < p - 1 {
      AsideAtLeast(terms, order, p - 1, i);
    } else {
      AsideNonNegative(terms, order, p - 1);
    }
  }

  lemma {:induction false} AsideNonNegative(terms: seq<Term>, order: seq<nat>, p: nat)
    requires ValidTerms(terms) && Named(terms, order) && p <= |terms|
    ensures Aside(terms, order, p) >= 0.0
    decreases p
  {
    if p > 0 {
      AsideNonNegative(terms, order, p - 1);
    }
  }

  /** The first p lists in the order can be left aside: together they do not go above the threshold. The others can
      score. */
  ghost predicate Divided(terms: seq<Term>, order: seq<nat>, p: nat, threshold: real) {
    && Wand.IsPerm(order, |terms|) && p <= |terms|
    && Aside(terms, order, p) <= threshold
    && forall j :: p <= j < |terms| ==> terms[order[j]].listUb > 0.0
  }

  /** No cursor is behind a row of F or above, and the leading lists are at F or above. */
  ghost predicate Leads(terms: seq<Term>, cur: seq<nat>, order: seq<nat>, p: nat, F: nat)
    requires Wand.IsPerm(order, |terms|)
  {
    && Cursors(terms, cur)
    && (forall t, i :: 0 <= t < |terms| && 0 <= i < cur[t] ==> terms[t].ords[i] < F)
    && (forall j :: p <= j < |terms| && Open(terms, cur, order[j]) ==> At(terms, cur, order[j]) >= F)
  }

  /** The heap is right for all documents below F. */
  ghost predicate Inv(terms: seq<Term>, live: uint64 -> bool, k: nat, h: seq<Entry>, cur: seq<nat>, order: seq<nat>,
                      p: nat, F: nat)
  {
    && k > 0 && ValidTerms(terms) && IsTopK(h, k, Scored(terms, live, F))
    && Divided(terms, order, p, Threshold(h, k)) && Leads(terms, cur, order, p, F)
  }

  lemma FullNonNegative(terms: seq<Term>, d: uint64)
    requires ValidTerms(terms)
    ensures Full(terms, d, |terms|) >= 0.0
  {
    ScoreAtMostFull(terms, seq(|terms|, _ => 0), d, |terms|);
  }

  lemma ThresholdNonNegative(terms: seq<Term>, live: uint64 -> bool, k: nat, h: seq<Entry>, F: nat)
    requires k > 0 && ValidTerms(terms) && IsTopK(h, k, Scored(terms, live, F))
    ensures Threshold(h, k) >= 0.0
  {
    if |h| == k {
      assert h[k - 1] in h && h[k - 1] in Scored(terms, live, F);
      FullNonNegative(terms, h[k - 1].ord);
    }
  }

  /** Documents that cannot get in: not live, not rated, or below a full heap. */
  ghost predicate NoUse(terms: seq<Term>, live: uint64 -> bool, k: nat, h: seq<Entry>, d: uint64)
    requires k > 0 && ValidTerms(terms)
  {
    !live(d) || !Rated(terms, d) || Hopeless(terms, h, k, d)
  }

  /** If none of the documents from F to G is of use, the heap is right up to G. */
  lemma UpTo(terms: seq<Term>, live: uint64 -> bool, k: nat, h: seq<Entry>, F: nat, G: nat)
    requires k > 0 && ValidTerms(terms) && IsTopK(h, k, Scored(terms, live, F)) && F <= G
    requires forall d: uint64 :: F <= d < G ==> NoUse(terms, live, k, h, d)
    ensures IsTopK(h, k, Scored(terms, live, G))
  {
    var before, after := Scored(terms, live, F), Scored(terms, live, G);
    forall e | e in after ensures e in h || (|h| == k && Better(h[k - 1], e)) {
      if e.ord < F {
        assert e in before;
      } else {
        assert NoUse(terms, live, k, h, e.ord);
        assert h != [] && h[k - 1] in h && h[k - 1] in before;
      }
    }
    forall e | e in h ensures e in after {
      assert e in before;
    }
  }

  // ---------------------------------------------------------------------------------------
  // The lists in the order of their bounds
  // ---------------------------------------------------------------------------------------

  /** Smaller bounds come first, and in their own order where bounds are equal. */
  ghost predicate Earlier(terms: seq<Term>, s: nat, t: nat) {
    s < |terms| && t < |terms| && (terms[s].listUb < terms[t].listUb || (terms[s].listUb == terms[t].listUb && s < t))
  }

  ghost predicate Sorted(terms: seq<Term>, order: seq<nat>) {
    forall i, j :: 0 <= i < j < |order| ==> Earlier(terms, order[i], order[j])
  }

  lemma InsertedIsPerm(order: seq<nat>, n: nat, j: nat)
    requires Wand.IsPerm(order, n) && j <= n
    ensures Wand.IsPerm(order[..j] + [n] + order[j..], n + 1)
  {
    var r := order[..j] + [n] + order[j..];
    forall t: nat | t < n + 1 ensures t in r {
      if t < n {
        assert t in order;
        var x :| 0 <= x < n && order[x] == t;
        assert r[if x < j then x else x + 1] == t;
      } else {
        assert r[j] == t;
      }
    }
  }

  lemma InsertedIsSorted(terms: seq<Term>, order: seq<nat>, n: nat, j: nat)
    requires Sorted(terms, order) && j <= |order| && (forall i :: j <= i < |order| ==> Earlier(terms, n, order[i]))
    requires j > 0 ==> Earlier(terms, order[j - 1], n)
    ensures Sorted(terms, order[..j] + [n] + order[j..])
  {
    var r := order[..j] + [n] + order[j..];
    forall x, y | 0 <= x < y < |r| ensures Earlier(terms, r[x], r[y]) {
      if y == j && x < j - 1 {
        assert Earlier(terms, order[x], order[j - 1]);
      }
    }
  }

  /** std::stable_sort by the bounds. */
  method SortOrder(terms: seq<Term>) returns (order: seq<nat>)
    ensures Wand.IsPerm(order, |terms|) && Sorted(terms, order)
  {
    order := [];
    for n := 0 to |terms|
      invariant Wand.IsPerm(order, n) && Sorted(terms, order)
    {
      var j: nat := n;
      while j > 0 && terms[n].listUb < terms[order[j - 1]].listUb
        invariant j <= n && forall i :: j <= i < n ==> terms[n].listUb < terms[order[i]].listUb
      {
        j := j - 1;
      }
      InsertedIsPerm(order, n, j);
      InsertedIsSorted(terms, order, n, j);
      order := order[..j] + [n] + order[j..];
    }
  }

  ghost predicate ArePrefixes(terms: seq<Term>, order: seq<nat>, prefix: seq<real>)
    requires Wand.IsPerm(order, |terms|)
  {
    |prefix| == |terms| && forall j :: 0 <= j < |terms| ==> prefix[j] == Aside(terms, order, j + 1)
  }

  method Prefixes(terms: seq<Term>, order: seq<nat>) returns (prefix: seq<real>)
    requires Wand.IsPerm(order, |terms|)
    ensures ArePrefixes(terms, order, prefix)
  {
    prefix := [];
    var acc := 0.0;
    for j := 0 to |terms|
      invariant |prefix| == j && acc == Aside(terms, order, j)
      invariant forall i :: 0 <= i < j ==> prefix[i] == Aside(terms, order, i + 1)
    {
        acc := acc + terms[order[j]].listUb;
      prefix := prefix + [acc];
    }
  }

  /** promote_boundary: as many lists as possible are left aside. */
  method Promote(terms: seq<Term>, order: seq<nat>, prefix: seq<real>, p: nat, threshold: real) returns (q: nat)
    requires Wand.IsPerm(order, |terms|) && p <= |terms| && Aside(terms, order, p) <= threshold
    requires ArePrefixes(terms, order, prefix)
    ensures p <= q <= |terms| && Aside(terms, order, q) <= threshold
    ensures q < |terms| ==> Aside(terms, order, q + 1) > threshold
  {
    q := p;
    while q < |terms| && prefix[q] <= threshold
      invariant p <= q <= |terms| && Aside(terms, order, q) <= threshold
    {
      q := q + 1;
    }
  }

  lemma FirstDivision(terms: seq<Term>, order: seq<nat>, p: nat)
    requires ValidTerms(terms) && Wand.IsPerm(order, |terms|) && Sorted(terms, order) && p <= |terms|
    requires Aside(terms, order, p) <= 0.0 && (p < |terms| ==> Aside(terms, order, p + 1) > 0.0)
    ensures Divided(terms, order, p, 0.0)
  {
    if p < |terms| {
    }
  }

  // ---------------------------------------------------------------------------------------
  // The next candidate
  // ---------------------------------------------------------------------------------------

  /** All leading lists are at d or above. */
  ghost predicate From(terms: seq<Term>, cur: seq<nat>, order: seq<nat>, p: nat, d: nat)
    requires Wand.IsPerm(order, |terms|) && Cursors(terms, cur)
  {
    forall j :: p <= j < |terms| && Open(terms, cur, order[j]) ==> At(terms, cur, order[j]) >= d
  }

  /** The least document at which a leading list stands; the greatest number there is if there is none. */
  method NextCandidate(terms: seq<Term>, cur: seq<nat>, order: seq<nat>, p: nat) returns (d: uint64, ghost x: nat)
    requires Wand.IsPerm(order, |terms|) && Cursors(terms, cur) && p <= |terms|
    ensures From(terms, cur, order, p, d)
    ensures d != UINT64_MAX ==> p <= x < |terms| && IsAt(terms, cur, order[x], d)
  {
    d, x := UINT64_MAX, 0;
    for j := p to |terms|
      invariant forall i :: p <= i < j && Open(terms, cur, order[i]) ==> At(terms, cur, order[i]) >= d
      invariant d != UINT64_MAX ==> p <= x < j && IsAt(terms, cur, order[x], d)
    {
      var t := order[j];
      if Open(terms, cur, t) && At(terms, cur, t) < d {
        d, x := At(terms, cur, t), j;
      }
    }
  }

  /** A list has no row for a document that lies before its cursor's and behind what the cursor has passed. */
  lemma NoRow(terms: seq<Term>, cur: seq<nat>, t: nat, F: nat, d: uint64)
    requires ValidTerms(terms) && Cursors(terms, cur) && t < |terms| && F <= d
    requires forall i :: 0 <= i < cur[t] ==> terms[t].ords[i] < F
    requires Open(terms, cur, t) ==> At(terms, cur, t) > d
    ensures d !in terms[t].ords && Posting(terms[t], d) == 0.0
  {
    var ords := terms[t].ords;
    forall i | 0 <= i < |ords| ensures ords[i] != d {
      if cur[t] <= i {
        assert ords[cur[t]] <= ords[i];
      }
    }
  }

  /** A document that no leading list has is of no use. */
  lemma OnlyAside(terms: seq<Term>, live: uint64 -> bool, k: nat, h: seq<Entry>, order: seq<nat>, p: nat, d: uint64)
    requires k > 0 && ValidTerms(terms) && |h| <= k && Divided(terms, order, p, Threshold(h, k))
    requires forall j :: p <= j < |terms| ==> d !in terms[order[j]].ords
    ensures NoUse(terms, live, k, h, d)
  {
    if |h| == k {
      var cs := AsideBounded(terms, order, p, d, d);
      var all := NothingFurther(terms, order, p, cs, d);
      BoundedScore(terms, order, all, d, d, d);
    } else if Rated(terms, d) {
      var t: nat, i: nat :| t < |terms| && terms[t].listUb > 0.0 && HasRow(terms[t], d, i);
      assert t in order;
      var j :| 0 <= j < |order| && order[j] == t;
      AsideAtLeast(terms, order, p, j);
    }
  }

  lemma {:induction false} NothingFurther(terms: seq<Term>, order: seq<nat>, j: nat, cs: seq<real>, d: uint64)
      returns (all: seq<real>)
    requires Columns(terms) && Named(terms, order) && |cs| == j <= |terms| && AllBounded(terms, order, cs, d, d)
    requires forall i :: j <= i < |terms| ==> d !in terms[order[i]].ords
    ensures |all| == |terms| && Sum(all) == Sum(cs) && AllBounded(terms, order, all, d, d)
    decreases |terms| - j
  {
    all := cs;
    if j < |terms| {
      assert Bounds(terms[order[j]], d, d, 0.0);
      StillBounded(terms, order, cs, 0.0, d, d);
      all := NothingFurther(terms, order, j + 1, cs + [0.0], d);
    }
  }

  /** Up to the next candidate nothing is of use. */
  lemma UpToCandidate(terms: seq<Term>, live: uint64 -> bool, k: nat, h: seq<Entry>, cur: seq<nat>, order: seq<nat>,
                      p: nat, F: nat, G: nat)
    requires Inv(terms, live, k, h, cur, order, p, F) && From(terms, cur, order, p, G) && F <= G
    ensures IsTopK(h, k, Scored(terms, live, G))
  {
    forall d: uint64 | F <= d < G ensures NoUse(terms, live, k, h, d) {
      forall j | p <= j < |terms| ensures d !in terms[order[j]].ords {
        NoRow(terms, cur, order[j], F, d);
      }
      OnlyAside(terms, live, k, h, order, p, d);
    }
    UpTo(terms, live, k, h, F, G);
  }

  // ---------------------------------------------------------------------------------------
  // Leaving blocks
  // ---------------------------------------------------------------------------------------

  /** Up to `end` no document from d on gets more than c from the list. */
  ghost predicate Bounds(t: Term, d: uint64, end: uint64, c: real)
    requires |t.contribs| == |t.ords|
  {
    forall x: uint64 :: d <= x <= end ==> Posting(t, x) <= c
  }

  /** The bound of the block in which a leading list stands, or of the list, and how far it reaches. */
  method BlockBound(terms: seq<Term>, cur: seq<nat>, t: nat, d: uint64, ghost F: nat, end: uint64)
      returns (c: real, end': uint64)
    requires ValidTerms(terms) && Cursors(terms, cur) && t < |terms| && Open(terms, cur, t) && At(terms, cur, t) >= d
    requires F <= d && forall i :: 0 <= i < cur[t] ==> terms[t].ords[i] < F
    ensures Bounds(terms[t], d, end', c) && end' <= end
    ensures end' == end || end' >= d
  {
    end' := end;
    var b := Wand.BlockForOrd(terms[t].blocks, d);
    if b.Some? && At(terms, cur, t) <= terms[t].blocks[b.value].endOrd {
      c := terms[t].blockUbs[b.value];
      assert ValidBlock(terms[t], b.value);
      if terms[t].blocks[b.value].endOrd < end {
        end' := terms[t].blocks[b.value].endOrd;
      }
      BoundInBlock(terms[t], b.value, cur[t], d, end');
    } else {
      c := terms[t].listUb;
      if At(terms, cur, t) < end {
        end' := At(terms, cur, t);
      }
      BoundInList(terms[t], d, end');
    }
  }

  lemma BoundInList(t: Term, d: uint64, end: uint64)
    requires ValidTerm(t)
    ensures Bounds(t, d, end, t.listUb)
  {
    forall x: uint64 | d <= x <= end ensures Posting(t, x) <= t.listUb {
      if x in t.ords {
        PostingAt(t, IndexOf(t.ords, x));
      }
    }
  }

  lemma BoundInBlock(t: Term, b: nat, i: nat, d: uint64, end: uint64)
    requires ValidTerm(t) && b < |t.blocks| && i < |t.ords| && d <= t.ords[i] <= t.blocks[b].endOrd
    requires t.blocks[b].baseOrd <= d && end <= t.blocks[b].endOrd
    ensures Bounds(t, d, end, t.blockUbs[b])
  {
    assert ValidBlock(t, b);
    var blk := t.blocks[b];
    var last := blk.start + blk.count - 1;
    Wand.InBlock(t, blk.start, last, i);
    assert 0.0 <= t.contribs[i] <= t.blockUbs[b];
    forall x: uint64 | d <= x <= end ensures Posting(t, x) <= t.blockUbs[b] {
      if x in t.ords {
        var y := IndexOf(t.ords, x);
        PostingAt(t, y);
        Wand.InBlock(t, blk.start, last, y);
      }
    }
  }

  ghost predicate BoundsAt(terms: seq<Term>, order: seq<nat>, j: nat, d: uint64, end: uint64, c: real) {
    Columns(terms) && Named(terms, order) && j < |terms| && Bounds(terms[order[j]], d, end, c)
  }

  /** The bounds for the lists in their order, which hold from d to end. */
  ghost predicate AllBounded(terms: seq<Term>, order: seq<nat>, cs: seq<real>, d: uint64, end: uint64)
    requires Columns(terms) && Named(terms, order) && |cs| <= |terms|
  {
    forall j: nat :: j < |cs| ==> BoundsAt(terms, order, j, d, end, cs[j])
  }

  lemma BoundsSooner(t: Term, d: uint64, end: uint64, end': uint64, c: real)
    requires |t.contribs| == |t.ords| && Bounds(t, d, end, c) && end' <= end
    ensures Bounds(t, d, end', c)
  {
  }

  lemma BoundedSooner(terms: seq<Term>, order: seq<nat>, cs: seq<real>, d: uint64, end: uint64, end': uint64)
    requires Columns(terms) && Named(terms, order) && |cs| <= |terms| && end' <= end
    requires AllBounded(terms, order, cs, d, end)
    ensures AllBounded(terms, order, cs, d, end')
  {
    forall j: nat | j < |cs| ensures BoundsAt(terms, order, j, d, end', cs[j]) {
      assert BoundsAt(terms, order, j, d, end, cs[j]);
      BoundsSooner(terms[order[j]], d, end, end', cs[j]);
    }
  }

  lemma HoldsOfOneMore(holds: (nat, real) -> bool, cs: seq<real>, c: real)
    requires (forall j: nat :: j < |cs| ==> holds(j, cs[j])) && holds(|cs|, c)
    ensures forall j: nat :: j < |cs + [c]| ==> holds(j, (cs + [c])[j])
  {
  }

  lemma StillBounded(terms: seq<Term>, order: seq<nat>, cs: seq<real>, c: real, d: uint64, end: uint64)
    requires Columns(terms) && Named(terms, order) && |cs| < |terms|
    requires AllBounded(terms, order, cs, d, end) && Bounds(terms[order[|cs|]], d, end, c)
    ensures AllBounded(terms, order, cs + [c], d, end) && Sum(cs + [c]) == Sum(cs) + c
  {
    SumSnoc(cs, c);
    HoldsOfOneMore((j: nat, x: real) => BoundsAt(terms, order, j, d, end, x), cs, c);
  }

  lemma BoundedScore(terms: seq<Term>, order: seq<nat>, cs: seq<real>, d: uint64, end: uint64, x: uint64)
    requires ValidTerms(terms) && Wand.IsPerm(order, |terms|) && |cs| == |terms|
    requires AllBounded(terms, order, cs, d, end) && d <= x <= end
    ensures Full(terms, x, |terms|) <= Sum(cs)
  {
    forall i | 0 <= i < |terms| ensures Posting(terms[order[i]], x) <= cs[i] {
      assert BoundsAt(terms, order, i, d, end, cs[i]);
    }
    FullAtMost(terms, x, order, cs);
  }

  lemma {:induction false} AsideBounded(terms: seq<Term>, order: seq<nat>, p: nat, d: uint64, end: uint64)
      returns (cs: seq<real>)
    requires ValidTerms(terms) && Named(terms, order) && p <= |terms|
    ensures |cs| == p && Sum(cs) == Aside(terms, order, p) && AllBounded(terms, order, cs, d, end)
  {
    if p == 0 {
      cs := [];
    } else {
      var before := AsideBounded(terms, order, p - 1, d, end);
      var c := terms[order[p - 1]].listUb;
      BoundInList(terms[order[p - 1]], d, end);
      StillBounded(terms, order, before, c, d, end);
      cs := before + [c];
    }
  }

  lemma ClosedBounded(terms: seq<Term>, cur: seq<nat>, t: nat, F: nat, d: uint64, end: uint64)
    requires ValidTerms(terms) && Cursors(terms, cur) && t < |terms| && !Open(terms, cur, t) && F <= d
    requires forall i :: 0 <= i < cur[t] ==> terms[t].ords[i] < F
    ensures Bounds(terms[t], d, end, 0.0)
  {
    forall x: uint64 | d <= x <= end ensures Posting(terms[t], x) <= 0.0 {
      NoRow(terms, cur, t, F, x);
    }
  }

  /** What no document from d to `end` can score above. */
  method BoundFrom(terms: seq<Term>, cur: seq<nat>, order: seq<nat>, p: nat, aside: real, d: uint64, ghost F: nat)
      returns (bound: real, end: uint64, ghost cs: seq<real>)
    requires ValidTerms(terms) && Wand.IsPerm(order, |terms|) && p <= |terms| && Leads(terms, cur, order, p, F)
    requires aside == Aside(terms, order, p) && From(terms, cur, order, p, d) && F <= d
    ensures |cs| == |terms| && bound == Sum(cs) && AllBounded(terms, order, cs, d, end)
    ensures end == UINT64_MAX || end >= d
  {
    bound, end := aside, UINT64_MAX;
    cs := AsideBounded(terms, order, p, d, end);
    for j := p to |terms|
      invariant |cs| == j && bound == Sum(cs) && AllBounded(terms, order, cs, d, end)
      invariant end == UINT64_MAX || end >= d
    {
      var t := order[j];
      var c, end' := 0.0, end;
      if Open(terms, cur, t) {
        c, end' := BlockBound(terms, cur, t, d, F, end);
      } else {
        ClosedBounded(terms, cur, t, F, d, end);
      }
      BoundedSooner(terms, order, cs, d, end, end');
      StillBounded(terms, order, cs, c, d, end');
      bound, end, cs := bound + c, end', cs + [c];
    }
  }

  /** One list catches up with d. */
  method Seek(terms: seq<Term>, cur: seq<nat>, t: nat, d: nat) returns (cur': seq<nat>)
    requires ValidTerms(terms) && Cursors(terms, cur) && t < |terms|
    ensures Cursors(terms, cur') && cur' == cur[t := cur'[t]] && cur[t] <= cur'[t]
    ensures forall i :: cur[t] <= i < cur'[t] ==> terms[t].ords[i] < d
    ensures Open(terms, cur', t) ==> At(terms, cur', t) >= d
    ensures Open(terms, cur, t) && At(terms, cur, t) < d ==> cur[t] < cur'[t]
  {
    cur' := cur;
    if Open(terms, cur, t) && At(terms, cur, t) < d {
      if d > UINT64_MAX {
        cur' := cur[t := |terms[t].ords|];
      } else {
        var c := Wand.Gallop(terms[t].ords, cur[t], d);
        cur' := cur[t := c];
      }
    }
  }

  /** Lists from a to b in the order catch up with d. */
  method SeekAll(terms: seq<Term>, cur: seq<nat>, order: seq<nat>, a: nat, b: nat, d: nat) returns (cur': seq<nat>)
    requires ValidTerms(terms) && Cursors(terms, cur) && Wand.IsPerm(order, |terms|) && a <= b <= |terms|
    ensures Wand.MovedTo(terms, cur, cur', d)
    ensures forall j :: a <= j < b && Open(terms, cur', order[j]) ==> At(terms, cur', order[j]) >= d
    ensures forall j :: 0 <= j < |terms| && !(a <= j < b) ==> cur'[order[j]] == cur[order[j]]
    ensures forall j :: a <= j < b && Open(terms, cur, order[j]) && At(terms, cur, order[j]) < d ==>
              cur[order[j]] < cur'[order[j]]
  {
    cur' := cur;
    for j := a to b
      invariant Wand.MovedTo(terms, cur, cur', d)
      invariant forall i :: a <= i < j && Open(terms, cur', order[i]) ==> At(terms, cur', order[i]) >= d
      invariant forall i :: 0 <= i < |terms| && !(a <= i < j) ==> cur'[order[i]] == cur[order[i]]
      invariant forall i :: a <= i < j && Open(terms, cur, order[i]) && At(terms, cur, order[i]) < d ==>
                  cur[order[i]] < cur'[order[i]]
    {
      ghost var before := cur';
      cur' := Seek(terms, cur', order[j], d);
      assert forall i :: 0 <= i < |terms| && i != j ==> cur'[order[i]] == before[order[i]];
    }
  }

  /** What the heads of these cursors show when all lists from d on may be skipped up to `end`. */
  lemma SkipKeeps(terms: seq<Term>, live: uint64 -> bool, k: nat, h: seq<Entry>, cur: seq<nat>, cur': seq<nat>,
                  order: seq<nat>, p: nat, F: nat, d: uint64, end: uint64, cs: seq<real>)
    requires Inv(terms, live, k, h, cur, order, p, F) && From(terms, cur, order, p, d) && F <= d <= end
    requires |h| == k && |cs| == |terms| && AllBounded(terms, order, cs, d, end) && Sum(cs) <= Threshold(h, k)
    requires Wand.MovedTo(terms, cur, cur', end as int + 1)
    requires forall j :: p <= j < |terms| && Open(terms, cur', order[j]) ==> At(terms, cur', order[j]) >= end as int + 1
    ensures Inv(terms, live, k, h, cur', order, p, end as int + 1)
  {
    UpToCandidate(terms, live, k, h, cur, order, p, F, d);
    forall x: uint64 | d <= x < end as int + 1 ensures NoUse(terms, live, k, h, x) {
      BoundedScore(terms, order, cs, d, end, x);
    }
    UpTo(terms, live, k, h, d, end as int + 1);
    StillBehind(terms, cur, cur', F, end as int + 1);
  }

  lemma StillBehind(terms: seq<Term>, cur: seq<nat>, cur': seq<nat>, F: nat, G: nat)
    requires Cursors(terms, cur) && Wand.MovedTo(terms, cur, cur', G) && F <= G
    requires forall t, i :: 0 <= t < |terms| && 0 <= i < cur[t] ==> terms[t].ords[i] < F
    ensures forall t, i :: 0 <= t < |terms| && 0 <= i < cur'[t] ==> terms[t].ords[i] < G
  {
    forall t, i | 0 <= t < |terms| && 0 <= i < cur'[t] ensures terms[t].ords[i] < G {
      if i >= cur[t] {
        assert cur[t] <= i < cur'[t];
      }
    }
  }

  /** Blocks that cannot bring a document above the threshold are left, if there are any. */
  method LeaveBlocks(terms: seq<Term>, ghost live: uint64 -> bool, h: seq<Entry>, k: nat, cur: seq<nat>,
                     order: seq<nat>, p: nat, aside: real, threshold: real, d: uint64, ghost x: nat, ghost F: nat)
      returns (cur': seq<nat>, moved: bool, ghost F': nat)
    requires Inv(terms, live, k, h, cur, order, p, F) && From(terms, cur, order, p, d) && F <= d
    requires p <= x < |terms| && IsAt(terms, cur, order[x], d)
    requires aside == Aside(terms, order, p) && threshold == Threshold(h, k)
    ensures moved ==> Inv(terms, live, k, h, cur', order, p, F') && F' <= UINT64_MAX
                      && Wand.Left(terms, cur', |terms|) < Wand.Left(terms, cur, |terms|)
    ensures !moved ==> cur' == cur && F' == F
  {
    cur', moved, F' := cur, false, F;
    if |h| >= k {
      var bound, end, cs := BoundFrom(terms, cur, order, p, aside, d, F);
      if bound <= threshold && end != UINT64_MAX && end >= d {
        moved, F' := true, end as int + 1;
        cur' := SeekAll(terms, cur, order, p, |terms|, end as int + 1);
        SkipKeeps(terms, live, k, h, cur, cur', order, p, F, d, end, cs);
        assert cur[order[x]] < cur'[order[x]];
        Wand.SomeMoved(terms, cur, cur');
      }
    }
  }

  // ---------------------------------------------------------------------------------------
  // Looking at a document
  // ---------------------------------------------------------------------------------------

  /** What the lists up to the j-th in the order give the document: bounds for those left aside, and the score that the
      leading ones add to them. */
  ghost predicate Given(terms: seq<Term>, order: seq<nat>, p: nat, cs: seq<real>, j: nat, score: real, d: uint64)
    requires ValidTerms(terms) && Wand.IsPerm(order, |terms|) && p <= |terms|
  {
    |cs| == j <= |terms| && Sum(cs) == Aside(terms, order, p) + score && AllBounded(terms, order, cs, d, d)
  }

  /** What one leading list gives the document. */
  method PartAt(terms: seq<Term>, cur: seq<nat>, order: seq<nat>, p: nat, j: nat, d: uint64, score: real, ghost F: nat,
                ghost cs: seq<real>)
      returns (score': real, ghost cs': seq<real>)
    requires ValidTerms(terms) && Wand.IsPerm(order, |terms|) && Leads(terms, cur, order, p, F)
    requires From(terms, cur, order, p, d) && F <= d && p <= j < |terms| && Given(terms, order, p, cs, j, score, d)
    ensures Given(terms, order, p, cs', j + 1, score', d)
  {
    var t := order[j];
    var c := if IsAt(terms, cur, t, d) then terms[t].contribs[cur[t]] else 0.0;
    HereBounded(terms, cur, t, F, d, c);
    StillBounded(terms, order, cs, c, d, d);
    score', cs' := score + c, cs + [c];
  }

  /** What the leading lists give the document, unless it turns out to be dead. */
  method LeadingScore(terms: seq<Term>, live: uint64 -> bool, cur: seq<nat>, order: seq<nat>, p: nat, d: uint64,
                      ghost x: nat, ghost F: nat)
      returns (dead: bool, score: real, ghost cs: seq<real>)
    requires ValidTerms(terms) && Wand.IsPerm(order, |terms|) && Leads(terms, cur, order, p, F)
    requires From(terms, cur, order, p, d) && F <= d && p <= x < |terms| && IsAt(terms, cur, order[x], d)
    ensures dead == !live(d)
    ensures !dead ==> Given(terms, order, p, cs, |terms|, score, d)
  {
    var known := false;
    dead, score := false, 0.0;
    cs := AsideBounded(terms, order, p, d, d);
    for j := p to |terms|
      invariant Given(terms, order, p, cs, j, score, d)
      invariant !dead && (known ==> live(d)) && (j > x ==> known)
    {
      if IsAt(terms, cur, order[j], d) && !known {
        known, dead := true, !live(d);
      }
      if dead {
        return;
      }
      score, cs := PartAt(terms, cur, order, p, j, d, score, F, cs);
    }
  }

  lemma HereBounded(terms: seq<Term>, cur: seq<nat>, t: nat, F: nat, d: uint64, c: real)
    requires ValidTerms(terms) && Cursors(terms, cur) && t < |terms| && F <= d
    requires forall i :: 0 <= i < cur[t] ==> terms[t].ords[i] < F
    requires Open(terms, cur, t) ==> At(terms, cur, t) >= d
    requires c == if IsAt(terms, cur, t, d) then terms[t].contribs[cur[t]] else 0.0
    ensures Bounds(terms[t], d, d, c)
  {
    if IsAt(terms, cur, t, d) {
      PostingAt(terms[t], cur[t]);
    } else {
      NoRow(terms, cur, t, F, d);
    }
  }

  lemma NextScored(terms: seq<Term>, live: uint64 -> bool, d: uint64)
    requires ValidTerms(terms) && Rated(terms, d)
    ensures Scored(terms, live, d as int + 1)
         == Scored(terms, live, d) + if live(d) then iset{Entry(Full(terms, d, |terms|), d)} else iset{}
  {
    assert IsDoc(terms, d);
  }

  lemma AllReady(terms: seq<Term>, cur: seq<nat>, F: nat, d: uint64)
    requires Cursors(terms, cur) && F <= d
    requires forall t, i :: 0 <= t < |terms| && 0 <= i < cur[t] ==> terms[t].ords[i] < F
    ensures Ready(terms, cur, d)
  {
    forall t, i | 0 <= t < |terms| && HasRow(terms[t], d, i) ensures cur[t] <= i {
      assert !(i < cur[t]);
    }
  }

  lemma LeadingIsRated(terms: seq<Term>, cur: seq<nat>, order: seq<nat>, p: nat, threshold: real, x: nat, d: uint64)
    requires Divided(terms, order, p, threshold) && Cursors(terms, cur)
    requires p <= x < |terms| && IsAt(terms, cur, order[x], d)
    ensures Rated(terms, d)
  {
    assert terms[order[x]].listUb > 0.0 && HasRow(terms[order[x]], d, cur[order[x]]);
  }

  /** The lists that are left aside are looked into, and the document is offered with its whole score. */
  method ScoreWhole(terms: seq<Term>, ghost live: uint64 -> bool, h: seq<Entry>, k: nat, cur: seq<nat>,
                    order: seq<nat>, p: nat, threshold: real, d: uint64, ghost F: nat)
      returns (h': seq<Entry>, cur': seq<nat>)
    requires k > 0 && ValidTerms(terms) && IsTopK(h, k, Scored(terms, live, d)) && Rated(terms, d) && live(d)
    requires Wand.IsPerm(order, |terms|) && p <= |terms| && Leads(terms, cur, order, p, F) && F <= d
    requires From(terms, cur, order, p, d) && threshold == Threshold(h, k)
    ensures IsTopK(h', k, Scored(terms, live, d as int + 1))
    ensures |h| == k ==> |h'| == k && h'[k - 1].score >= h[k - 1].score
    ensures Wand.MovedTo(terms, cur, cur', d)
    ensures forall j :: p <= j < |terms| ==> cur'[order[j]] == cur[order[j]]
  {
    cur' := SeekAll(terms, cur, order, 0, p, d);
    ghost var before := Scored(terms, live, d);
    forall t: nat | t < |terms| && Open(terms, cur', t) ensures d <= At(terms, cur', t) {
      assert t in order;
      var j :| 0 <= j < |order| && order[j] == t;
    }
    StillBehind(terms, cur, cur', F, d);
    AllReady(terms, cur', d, d);
    ScoreIsFull(terms, cur', d, |terms|);
    FullNonNegative(terms, d);
    NextScored(terms, live, d);
    var score := Wand.ScorePivot(terms, cur', d);
    h' := h;
    assert forall x :: x in h ==> x in before;
    if score >= threshold {
      h' := Offer(h, k, score, d, before);
    } else {
      assert h[k - 1] in h;
      NotAmongThem(h, k, before, Entry(score, d));
    }
  }

  /** All lists that stand at d go on. */
  method Step(terms: seq<Term>, cur: seq<nat>, d: uint64) returns (cur': seq<nat>)
    requires ValidTerms(terms) && Cursors(terms, cur)
    ensures Wand.MovedTo(terms, cur, cur', d as int + 1)
    ensures forall t :: 0 <= t < |terms| ==> cur'[t] == if IsAt(terms, cur, t, d) then cur[t] + 1 else cur[t]
  {
    cur' := cur;
    for t := 0 to |terms|
      invariant |cur'| == |cur|
      invariant forall u :: 0 <= u < |terms| ==>
                  cur'[u] == if u < t && IsAt(terms, cur, u, d) then cur[u] + 1 else cur[u]
    {
      if IsAt(terms, cur', t, d) {
        cur' := cur'[t := cur'[t] + 1];
      }
    }
  }

  /** A document that cannot get above the threshold by what the leading lists give it and all others might. */
  lemma SkipsOne(terms: seq<Term>, live: uint64 -> bool, k: nat, h: seq<Entry>, order: seq<nat>, cs: seq<real>,
                 d: uint64, dead: bool)
    requires k > 0 && ValidTerms(terms) && Wand.IsPerm(order, |terms|) && IsTopK(h, k, Scored(terms, live, d))
    requires dead == !live(d)
    requires !dead ==> |h| == k && |cs| == |terms| && AllBounded(terms, order, cs, d, d) && Sum(cs) <= Threshold(h, k)
    ensures IsTopK(h, k, Scored(terms, live, d as int + 1))
  {
    if !dead {
      BoundedScore(terms, order, cs, d, d, d);
    }
    assert NoUse(terms, live, k, h, d);
    UpTo(terms, live, k, h, d, d as int + 1);
  }

  /** One candidate: scored whole if it may get in, passed over if not. */
  method Visit(terms: seq<Term>, live: uint64 -> bool, h: seq<Entry>, k: nat, cur: seq<nat>, order: seq<nat>, p: nat,
               aside: real, threshold: real, d: uint64, ghost x: nat, ghost F: nat)
      returns (h': seq<Entry>, cur': seq<nat>)
    requires Inv(terms, live, k, h, cur, order, p, F) && From(terms, cur, order, p, d) && F <= d
    requires p <= x < |terms| && IsAt(terms, cur, order[x], d)
    requires aside == Aside(terms, order, p) && threshold == Threshold(h, k)
    ensures IsTopK(h', k, Scored(terms, live, d as int + 1)) && Leads(terms, cur', order, p, d as int + 1)
    ensures |h| == k ==> |h'| == k && h'[k - 1].score >= h[k - 1].score
    ensures Wand.Left(terms, cur', |terms|) < Wand.Left(terms, cur, |terms|)
  {
    h', cur' := h, cur;
    UpToCandidate(terms, live, k, h, cur, order, p, F, d);
    LeadingIsRated(terms, cur, order, p, threshold, x, d);
    var dead, score, cs := LeadingScore(terms, live, cur, order, p, d, x, F);
    if !dead && !(|h| >= k && score + aside <= threshold) {
      h', cur' := ScoreWhole(terms, live, h, k, cur, order, p, threshold, d, F);
    } else {
      SkipsOne(terms, live, k, h, order, cs, d, dead);
    }
    ghost var sought := cur';
    cur' := Step(terms, cur', d);
    StepKeeps(terms, cur, sought, cur', order, p, x, F, d);
  }

  lemma StepKeeps(terms: seq<Term>, cur: seq<nat>, sought: seq<nat>, cur': seq<nat>, order: seq<nat>, p: nat, x: nat,
                  F: nat, d: uint64)
    requires ValidTerms(terms) && Wand.IsPerm(order, |terms|) && Leads(terms, cur, order, p, F) && F <= d
    requires From(terms, cur, order, p, d) && p <= x < |terms| && IsAt(terms, cur, order[x], d)
    requires Wand.MovedTo(terms, cur, sought, d) && forall j :: p <= j < |terms| ==> sought[order[j]] == cur[order[j]]
    requires Wand.MovedTo(terms, sought, cur', d as int + 1)
    requires forall t :: 0 <= t < |terms| ==> cur'[t] == if IsAt(terms, sought, t, d) then sought[t] + 1 else sought[t]
    ensures Leads(terms, cur', order, p, d as int + 1)
    ensures Wand.Left(terms, cur', |terms|) < Wand.Left(terms, cur, |terms|)
  {
    StillBehind(terms, cur, sought, F, d);
    StillBehind(terms, sought, cur', d, d as int + 1);
    forall j | p <= j < |terms| && Open(terms, cur', order[j]) ensures At(terms, cur', order[j]) >= d as int + 1 {
      var t := order[j];
      assert Open(terms, cur, t) && At(terms, cur, t) >= d;
    }
    var t := order[x];
    assert cur'[t] == cur[t] + 1;
    forall u | 0 <= u < |terms| ensures cur[u] <= cur'[u] {
      assert cur[u] <= sought[u] <= cur'[u];
    }
    Wand.SomeMoved(terms, cur, cur');
  }

  // ---------------------------------------------------------------------------------------
  // The search
  // ---------------------------------------------------------------------------------------

  lemma PromoteKeeps(terms: seq<Term>, live: uint64 -> bool, k: nat, h: seq<Entry>, cur: seq<nat>, order: seq<nat>,
                     p: nat, q: nat, F: nat, before: real)
    requires k > 0 && ValidTerms(terms) && IsTopK(h, k, Scored(terms, live, F))
    requires Divided(terms, order, p, before) && Leads(terms, cur, order, p, F) && p <= q <= |terms|
    requires Aside(terms, order, q) <= Threshold(h, k)
    ensures Inv(terms, live, k, h, cur, order, q, F)
  {
  }

  /** After a document has been looked at: the threshold may have gone up, and more lists may be left aside. */
  method Raise(terms: seq<Term>, ghost live: uint64 -> bool, ghost h: seq<Entry>, h': seq<Entry>, k: nat,
               ghost cur: seq<nat>, order: seq<nat>, prefix: seq<real>, p: nat, threshold: real, ghost F: nat)
      returns (p': nat, threshold': real)
    requires k > 0 && ValidTerms(terms) && IsTopK(h', k, Scored(terms, live, F)) && |h| <= k
    requires Divided(terms, order, p, threshold) && Leads(terms, cur, order, p, F) && ArePrefixes(terms, order, prefix)
    requires threshold == Threshold(h, k) && (|h| == k ==> |h'| == k && h'[k - 1].score >= h[k - 1].score)
    ensures Inv(terms, live, k, h', cur, order, p', F) && threshold' == Threshold(h', k)
  {
    ThresholdNonNegative(terms, live, k, h', F);
    p', threshold' := p, threshold;
    if |h'| >= k && h'[k - 1].score > threshold {
      threshold' := h'[k - 1].score;
      p' := Promote(terms, order, prefix, p, threshold');
    }
    PromoteKeeps(terms, live, k, h', cur, order, p, p', F, threshold);
  }

  /** One round: blocks are left, or one document is looked at. */
  method Round(terms: seq<Term>, live: uint64 -> bool, h: seq<Entry>, k: nat, cur: seq<nat>, order: seq<nat>,
               prefix: seq<real>, p: nat, threshold: real, d: uint64, ghost x: nat, ghost F: nat)
      returns (h': seq<Entry>, cur': seq<nat>, p': nat, threshold': real, ghost F': nat)
    requires Inv(terms, live, k, h, cur, order, p, F) && From(terms, cur, order, p, d) && F <= d < UINT64_MAX
    requires p <= x < |terms| && IsAt(terms, cur, order[x], d)
    requires ArePrefixes(terms, order, prefix) && threshold == Threshold(h, k)
    ensures Inv(terms, live, k, h', cur', order, p', F') && F' <= UINT64_MAX && threshold' == Threshold(h', k)
    ensures Wand.Left(terms, cur', |terms|) < Wand.Left(terms, cur, |terms|)
  {
    var aside := if p > 0 then prefix[p - 1] else 0.0;
    var moved;
    h', p', threshold' := h, p, threshold;
    cur', moved, F' := LeaveBlocks(terms, live, h, k, cur, order, p, aside, threshold, d, x, F);
    if moved {
      return;
    }
    h', cur' := Visit(terms, live, h, k, cur, order, p, aside, threshold, d, x, F);
    F' := d as int + 1;
    p', threshold' := Raise(terms, live, h, h', k, cur', order, prefix, p, threshold, F');
  }

  /** The result is the best k of all live documents that occur in a list which can score, each with its whole score.
      The greatest number there is is not taken for a document. */
  method Search(terms: seq<Term>, live: uint64 -> bool, k: nat) returns (results: seq<Entry>)
    requires k > 0 && ValidTerms(terms)
    ensures IsTopK(results, k, Scored(terms, live, UINT64_MAX))
  {
    var cur: seq<nat> := seq(|terms|, _ => 0);
    var order := SortOrder(terms);
    var prefix := Prefixes(terms, order);
    var h: seq<Entry> := [];
    var threshold := 0.0;
    ghost var F: nat := 0;
    var p: nat := Promote(terms, order, prefix, 0, threshold);
    FirstDivision(terms, order, p);
    while p < |terms|
      invariant Inv(terms, live, k, h, cur, order, p, F) && threshold == Threshold(h, k) && F <= UINT64_MAX
      decreases Wand.Left(terms, cur, |terms|)
    {
      var d, x := NextCandidate(terms, cur, order, p);
      if d == UINT64_MAX {
        assert From(terms, cur, order, p, UINT64_MAX);
        break;
      }
      h, cur, p, threshold, F := Round(terms, live, h, k, cur, order, prefix, p, threshold, d, x, F);
    }
    UpToCandidate(terms, live, k, h, cur, order, p, F, UINT64_MAX);
    results := Drain(h);
  }

  // ---------------------------------------------------------------------------------------
  // Both searches
  // ---------------------------------------------------------------------------------------

  /** Every live document occurs in a list that can score, and none has the greatest number. */
  ghost predicate AllRated(terms: seq<Term>, live: uint64 -> bool) {
    forall d: uint64 :: live(d) && IsDoc(terms, d) ==> d < UINT64_MAX && Rated(terms, d)
  }

  /** Both searches give the same results, whenever there are fewer than k, exactly if that is so; and if it is, they
      always do. */
  lemma SameResultsExactly(terms: seq<Term>, live: uint64 -> bool, k: nat, a: seq<Entry>, b: seq<Entry>)
    requires k > 0 && ValidTerms(terms)
    requires IsTopK(a, k, Scored(terms, live, UINT64_MAX))
    requires IsTopK(b, k, Candidates(terms, live, UINT64_MAX as int + 1))
    ensures AllRated(terms, live) ==> a == b
    ensures |b| < k ==> (a == b <==> AllRated(terms, live))
  {
    if AllRated(terms, live) {
      assert Scored(terms, live, UINT64_MAX) == Candidates(terms, live, UINT64_MAX as int + 1);
      TopKIsUnique(a, b, k, Scored(terms, live, UINT64_MAX));
    } else {
      var d: uint64 :| live(d) && IsDoc(terms, d) && !(d < UINT64_MAX && Rated(terms, d));
      var e := Entry(Full(terms, d, |terms|), d);
      assert e in Candidates(terms, live, UINT64_MAX as int + 1) && e !in Scored(terms, live, UINT64_MAX);
    }
  }

  /** Which lists of an index can score: those of a term that is worth something, with any occurrence at all. Of a term
      without live documents the program sets the worth to zero. */
  lemma CanScoreExactly(ords: seq<uint64>, tfs: seq<uint32>, dls: seq<uint32>, blocks: seq<PostingRows.Block>,
                        maxTf: uint32, p: Bm25.Params, idf: real, avgdl: real)
    requires |ords| == |tfs| == |dls| && Bm25.Admissible(p, idf, avgdl)
    requires (forall i :: 0 <= i < |dls| ==> dls[i] > 0) && forall b :: 0 <= b < |blocks| ==> blocks[b].minDl > 0
    ensures TermOf(ords, tfs, dls, blocks, maxTf, p, idf, avgdl).listUb > 0.0
       <==> idf > 0.0 && (maxTf > 0 || p.delta > 0.0)
  {
    Bm25.PositiveExactly(maxTf, 1, p, idf, avgdl);
  }

  /** The switch between the two searches does not show. */
  method SearchTopK(useMaxScore: bool, terms: seq<Term>, live: uint64 -> bool, k: nat) returns (results: seq<Entry>)
    requires k > 0 && ValidTerms(terms)
    ensures IsTopK(results, k, if useMaxScore then Scored(terms, live, UINT64_MAX)
                               else Candidates(terms, live, UINT64_MAX as int + 1))
    ensures AllRated(terms, live) ==> IsTopK(results, k, Candidates(terms, live, UINT64_MAX as int + 1))
  {
    if useMaxScore {
      results := Search(terms, live, k);
      if AllRated(terms, live) {
        assert Scored(terms, live, UINT64_MAX) == Candidates(terms, live, UINT64_MAX as int + 1);
      }
    } else {
      results := Wand.Search(terms, live, k);
    }
  }
}
