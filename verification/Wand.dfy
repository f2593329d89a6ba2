/**
  Block-max WAND (src/bm25/bm25_search_impl.hpp 381-566): lists are followed side by side, and what cannot get among
  the best k is stepped over, a document or a block at a time. The result is that of scoring everything.
 */
module Wand {
  import opened Bytes
  import opened TopK
  import opened WandLists
  import PostingRows

  // ---------------------------------------------------------------------------------------
  // The order of the lists
  // ---------------------------------------------------------------------------------------

  /** Used-up lists come first, the others by their current ord. */
  function Rank(terms: seq<Term>, cur: seq<nat>, t: nat): int
    requires t < |cur| == |terms|
  {
    if Open(terms, cur, t) then At(terms, cur, t) else -1
  }

  ghost predicate IsPerm(order: seq<nat>, n: nat) {
    && |order| == n
    && (forall i :: 0 <= i < n ==> order[i] < n)
    && (forall i, j :: 0 <= i < j < n ==> order[i] != order[j])
    && (forall t: nat :: t < n ==> t in order)
  }

  ghost predicate SortedTo(terms: seq<Term>, cur: seq<nat>, order: seq<nat>, n: nat)
    requires |cur| == |terms| && n <= |order| && forall i :: 0 <= i < |order| ==> order[i] < |terms|
  {
    forall i, j :: 0 <= i < j < n ==> Rank(terms, cur, order[i]) <= Rank(terms, cur, order[j])
  }

  function Swap(s: seq<nat>, i: nat, j: nat): seq<nat>
    requires i < |s| && j < |s|
  {
    s[i := s[j]][j := s[i]]
  }

  lemma SwapIsPerm(s: seq<nat>, i: nat, j: nat)
    requires IsPerm(s, |s|) && i < |s| && j < |s|
    ensures IsPerm(Swap(s, i, j), |s|)
  {
    var r := Swap(s, i, j);
    forall t: nat | t < |s| ensures t in r {
      assert t in s;
      var x :| 0 <= x < |s| && s[x] == t;
      assert r[if x == i then j else if x == j then i else x] == t;
    }
  }

  /** The first i + 1 are sorted but for the one at j, which is less than those behind it. */
  ghost predicate SortedBut(terms: seq<Term>, cur: seq<nat>, s: seq<nat>, i: nat, j: nat)
    requires Cursors(terms, cur) && IsPerm(s, |terms|) && j <= i < |s|
  {
    && (forall x, y :: 0 <= x < y <= i && x != j && y != j ==> Rank(terms, cur, s[x]) <= Rank(terms, cur, s[y]))
    && forall y :: j < y <= i ==> Rank(terms, cur, s[j]) < Rank(terms, cur, s[y])
  }

  lemma MoveGap(terms: seq<Term>, cur: seq<nat>, s: seq<nat>, i: nat, j: nat)
    requires Cursors(terms, cur) && IsPerm(s, |terms|) && 0 < j <= i < |s| && SortedBut(terms, cur, s, i, j)
    requires Rank(terms, cur, s[j]) < Rank(terms, cur, s[j - 1])
    ensures IsPerm(Swap(s, j - 1, j), |terms|) && SortedBut(terms, cur, Swap(s, j - 1, j), i, j - 1)
  {
    SwapIsPerm(s, j - 1, j);
  }

  /** One turn of the insertion sort. */
  method InsertOne(terms: seq<Term>, cur: seq<nat>, order: seq<nat>, i: nat) returns (r: seq<nat>)
    requires Cursors(terms, cur) && IsPerm(order, |terms|) && 0 < i < |order| && SortedTo(terms, cur, order, i)
    ensures IsPerm(r, |terms|) && SortedTo(terms, cur, r, i + 1)
  {
    var key := order[i];
    var j := i;
    r := order;
    ghost var all := order;                    // r with the key put into the gap
    while j > 0 && Rank(terms, cur, key) < Rank(terms, cur, r[j - 1])
      invariant 0 <= j <= i && |r| == |order| && all == r[j := key] && IsPerm(all, |terms|)
      invariant (j > 0 ==> r[j - 1] == all[j - 1]) && SortedBut(terms, cur, all, i, j)
    {
      MoveGap(terms, cur, all, i, j);
      all := Swap(all, j - 1, j);
      r := r[j := r[j - 1]];
      j := j - 1;
      assert all == r[j := key];
    }
    r := r[j := key];
  }

  method SortOrder(terms: seq<Term>, cur: seq<nat>, order: seq<nat>) returns (r: seq<nat>)
    requires Cursors(terms, cur) && IsPerm(order, |terms|)
    ensures IsPerm(r, |terms|) && SortedTo(terms, cur, r, |r|)
  {
    r := order;
    var i: nat := 1;
    while i < |r|
      invariant IsPerm(r, |terms|) && 1 <= i && SortedTo(terms, cur, r, if i <= |r| then i else |r|)
    {
      r := InsertOne(terms, cur, r, i);
      i := i + 1;
    }
  }

  // ---------------------------------------------------------------------------------------
  // The pivot
  // ---------------------------------------------------------------------------------------

  /** The first i lists in the order. */
  ghost function Front(order: seq<nat>, i: nat): set<nat>
    requires i <= |order|
  {
    set t | t in order[..i]
  }

  /** Together the lists of P cannot reach the threshold, or none of them is open. */
  ghost predicate TooLow(terms: seq<Term>, cur: seq<nat>, P: set<nat>, threshold: real)
    requires |cur| == |terms|
  {
    UbSum(terms, cur, P, |terms|) < threshold || forall t :: t in P && t < |terms| ==> !Open(terms, cur, t)
  }

  method FindPivot(terms: seq<Term>, cur: seq<nat>, order: seq<nat>, threshold: real) returns (pos: Option<nat>)
    requires ValidTerms(terms) && Cursors(terms, cur) && IsPerm(order, |terms|)
    ensures pos.Some? ==> pos.value < |order| && Open(terms, cur, order[pos.value])
                          && UbSum(terms, cur, Front(order, pos.value + 1), |terms|) >= threshold
    ensures TooLow(terms, cur, Front(order, if pos.Some? then pos.value else |order|), threshold)
  {
    var acc := 0.0;
    ghost var P: set<nat> := {};
    UbSumNone(terms, cur, P, |terms|);
    for i := 0 to |order|
      invariant P == Front(order, i) && TooLow(terms, cur, P, threshold)
      invariant acc == UbSum(terms, cur, P, |terms|)
    {
      var t := order[i];
      UbSumAdds(terms, cur, P, t, |terms|);
      if Open(terms, cur, t) {
        acc := acc + terms[t].listUb;
        if acc >= threshold {
          assert Front(order, i + 1) == P + {t};
          return Some(i);
        }
      }
      P := P + {t};
    }
    return None;
  }

  /** A document that no cursor has passed and that lies before the pivot cannot get in. */
  lemma BeforePivot(terms: seq<Term>, h: seq<Entry>, k: nat, cur: seq<nat>, P: set<nat>, d: uint64)
    requires ValidTerms(terms) && Cursors(terms, cur) && k > 0 && |h| <= k
    requires TooLow(terms, cur, P, Threshold(h, k)) && IsDoc(terms, d) && Within(terms, cur, P, d)
    ensures Hopeless(terms, h, k, d)
  {
    var t: nat, i: nat :| t < |terms| && HasRow(terms[t], d, i);
    assert t in P && cur[t] <= i;
    assert Open(terms, cur, t);
    FullWithin(terms, cur, P, d, |terms|);
    UbSumNonNegative(terms, cur, P, |terms|);
  }

  lemma RowsBeforePivot(terms: seq<Term>, cur: seq<nat>, order: seq<nat>, pos: nat, d: uint64)
    requires ValidTerms(terms) && Cursors(terms, cur) && IsPerm(order, |terms|) && SortedTo(terms, cur, order, |order|)
    requires pos < |order| && Open(terms, cur, order[pos])
    requires Ready(terms, cur, d) && d < At(terms, cur, order[pos])
    ensures Within(terms, cur, Front(order, pos), d)
  {
    forall t: nat, i: nat | t < |terms| && HasRow(terms[t], d, i) ensures t in Front(order, pos) && cur[t] <= i {
      assert terms[t].ords[cur[t]] <= terms[t].ords[i];
      assert Rank(terms, cur, t) < Rank(terms, cur, order[pos]);
      assert t in order;
      var j :| 0 <= j < |order| && order[j] == t;
    }
  }

  // ---------------------------------------------------------------------------------------
  // Moving cursors
  // ---------------------------------------------------------------------------------------

  /** std::lower_bound on [lo, hi). */
  method LowerBound(s: seq<uint64>, lo: nat, hi: nat, d: uint64) returns (p: nat)
    requires Ascending(s) && lo <= hi <= |s|
    ensures lo <= p <= hi && (forall i :: lo <= i < p ==> s[i] < d) && (forall i :: p <= i < hi ==> s[i] >= d)
  {
    var q: nat := hi;
    p := lo;
    while p < q
      invariant lo <= p <= q <= hi && (forall i :: lo <= i < p ==> s[i] < d) && (forall i :: q <= i < hi ==> s[i] >= d)
    {
      var m: nat := (p + q) / 2;
      if s[m] < d {
        p := m + 1;
      } else {
        q := m;
      }
    }
  }

  /** The first row from the cursor on that is not before d, found in growing steps. */
  method Gallop(s: seq<uint64>, cursor: nat, d: uint64) returns (p: nat)
    requires Ascending(s) && cursor < |s| && s[cursor] < d
    ensures cursor < p <= |s| && (forall i :: cursor <= i < p ==> s[i] < d) && (p < |s| ==> s[p] >= d)
  {
    var lo, step, hi: nat := cursor, 1, cursor + 1;
    while hi < |s| && s[hi] < d
      invariant cursor <= lo < |s| && lo < hi && step > 0 && s[lo] < d
      decreases |s| - lo
    {
      lo := hi;
      hi := hi + step;
      step := step * 2;
    }
    if hi > |s| {
      hi := |s|;
    }
    p := LowerBound(s, lo + 1, hi, d);
    forall i | cursor <= i < p ensures s[i] < d {
      assert i <= lo ==> s[i] <= s[lo];
    }
  }

  /** Cursors have moved over rows before d only. */
  ghost predicate MovedTo(terms: seq<Term>, cur: seq<nat>, cur': seq<nat>, d: int) {
    && Cursors(terms, cur) && Cursors(terms, cur')
    && forall t :: 0 <= t < |terms| ==> cur[t] <= cur'[t] && forall i :: cur[t] <= i < cur'[t] ==> terms[t].ords[i] < d
  }

  /** The lists that lag behind the pivot catch up. */
  method Align(terms: seq<Term>, cur: seq<nat>, order: seq<nat>, pos: nat, d: uint64)
      returns (cur': seq<nat>, lagged: bool)
    requires ValidTerms(terms) && Cursors(terms, cur) && IsPerm(order, |terms|) && pos <= |order|
    ensures MovedTo(terms, cur, cur', d) && (lagged <==> cur' != cur)
    ensures !lagged ==> forall i :: 0 <= i < pos && Open(terms, cur, order[i]) ==> At(terms, cur, order[i]) >= d
  {
    cur', lagged := cur, false;
    for i := 0 to pos
      invariant MovedTo(terms, cur, cur', d) && (lagged <==> cur' != cur)
      invariant !lagged ==> forall j :: 0 <= j < i && Open(terms, cur, order[j]) ==> At(terms, cur, order[j]) >= d
    {
      var t := order[i];
      if Open(terms, cur', t) && At(terms, cur', t) < d {
        var p := Gallop(terms[t].ords, cur'[t], d);
        assert cur'[t] != p;
        cur' := cur'[t := p];
        lagged := true;
        assert cur'[t] > cur[t];
      }
    }
  }

  /** The first block that does not end before d, if it does not begin after d. */
  method BlockForOrd(blocks: seq<PostingRows.Block>, d: uint64) returns (b: Option<nat>)
    ensures b.Some? ==> b.value < |blocks| && blocks[b.value].baseOrd <= d <= blocks[b.value].endOrd
  {
    for i := 0 to |blocks| {
      if blocks[i].endOrd >= d {
        return if blocks[i].baseOrd <= d then Some(i) else None;
      }
    }
    return None;
  }

  /** The block in which the cursor of list t stands may be left. */
  ghost predicate Skipped(terms: seq<Term>, cur: seq<nat>, t: nat, next: nat, threshold: real)
    requires t < |cur| == |terms|
  {
    exists ub: real :: ub <= threshold - (TotalUb(terms, cur, |terms|) - terms[t].listUb)
                       && RowsUpTo(terms[t], cur[t], next, ub)
  }

  ghost predicate RowsUpTo(t: Term, from: nat, to: nat, ub: real) {
    |t.contribs| == |t.ords| && to <= |t.ords| && forall i :: from <= i < to ==> t.contribs[i] <= ub
  }

  /** What makes a block of list t be left. */
  method SkipOne(terms: seq<Term>, cur: seq<nat>, t: nat, d: uint64, threshold: real, total: real) returns (next: nat)
    requires ValidTerms(terms) && Cursors(terms, cur) && t < |terms| && IsAt(terms, cur, t, d)
    requires total == TotalUb(terms, cur, |terms|)
    ensures cur[t] <= next <= |terms[t].ords| && (next > cur[t] ==> Skipped(terms, cur, t, next, threshold))
  {
    next := cur[t];
    var b := BlockForOrd(terms[t].blocks, d);
    if b.Some? && terms[t].blockUbs[b.value] <= threshold - (total - terms[t].listUb) {
      var blk := terms[t].blocks[b.value];
      assert ValidBlock(terms[t], b.value);
      InBlock(terms[t], blk.start, blk.start + blk.count - 1, cur[t]);
      next := blk.start + blk.count;
      assert RowsUpTo(terms[t], cur[t], next, terms[t].blockUbs[b.value]);
    }
  }

  lemma InOrder(s: seq<uint64>, i: nat, j: nat)
    requires Ascending(s) && i < |s| && j < |s| && s[i] <= s[j]
    ensures i <= j
  {
  }

  lemma InBlock(t: Term, first: nat, last: nat, i: nat)
    requires ValidTerm(t) && first <= last < |t.ords| && i < |t.ords| && t.ords[first] <= t.ords[i] <= t.ords[last]
    ensures first <= i <= last
  {
    InOrder(t.ords, first, i);
    InOrder(t.ords, i, last);
  }

  ghost predicate SkippedTo(terms: seq<Term>, cur: seq<nat>, cur': seq<nat>, threshold: real) {
    && Cursors(terms, cur) && Cursors(terms, cur')
    && forall t :: 0 <= t < |terms| ==> cur[t] <= cur'[t]
                                         && (cur[t] < cur'[t] ==> Skipped(terms, cur, t, cur'[t], threshold))
  }

  /** Blocks that cannot bring their documents above the threshold are left. */
  method SkipBlocks(terms: seq<Term>, cur: seq<nat>, order: seq<nat>, pos: nat, d: uint64, full: bool, threshold: real)
      returns (cur': seq<nat>, skipped: bool)
    requires ValidTerms(terms) && Cursors(terms, cur) && IsPerm(order, |terms|) && pos < |order|
    ensures SkippedTo(terms, cur, cur', threshold) && (skipped <==> cur' != cur) && (!full ==> !skipped)
  {
    var total := SumOpen(terms, cur);
    cur', skipped := cur, false;
    for i := 0 to pos + 1
      invariant SkippedTo(terms, cur, cur', threshold) && (skipped <==> cur' != cur) && (!full ==> !skipped)
      invariant forall j :: i <= j < |order| ==> cur'[order[j]] == cur[order[j]]
    {
      var t := order[i];
      if IsAt(terms, cur', t, d) && full {
        var next := SkipOne(terms, cur, t, d, threshold, total);
        if next > cur[t] {
          cur' := cur'[t := next];
          skipped := true;
          assert cur'[t] > cur[t];
        }
      }
    }
  }

  method SumOpen(terms: seq<Term>, cur: seq<nat>) returns (total: real)
    requires Cursors(terms, cur)
    ensures total == TotalUb(terms, cur, |terms|)
  {
    total := 0.0;
    for t := 0 to |terms|
      invariant total == TotalUb(terms, cur, t)
    {
      if Open(terms, cur, t) {
        total := total + terms[t].listUb;
      }
    }
  }

  lemma SkippedIsMoved(terms: seq<Term>, live: uint64 -> bool, h: seq<Entry>, k: nat, cur: seq<nat>, cur': seq<nat>,
                       F: nat)
    requires Inv(terms, live, k, h, cur, F) && |h| == k && SkippedTo(terms, cur, cur', Threshold(h, k))
    ensures Moved(terms, h, k, cur, cur')
  {
    forall t, i | 0 <= t < |terms| && cur[t] <= i < cur'[t] ensures Hopeless(terms, h, k, terms[t].ords[i]) {
      var d := terms[t].ords[i];
      assert Skipped(terms, cur, t, cur'[t], Threshold(h, k));
      var ub: real :| ub <= Threshold(h, k) - (TotalUb(terms, cur, |terms|) - terms[t].listUb)
                      && RowsUpTo(terms[t], cur[t], cur'[t], ub);
      PostingAt(terms[t], i);
      assert HasRow(terms[t], d, i) && Open(terms, cur, t);
      assert At(terms, cur, t) <= d;
      if Ready(terms, cur, d) {
        FullInBlock(terms, cur, d, t, ub, |terms|);
      }
    }
  }

  lemma AlignedIsMoved(terms: seq<Term>, live: uint64 -> bool, h: seq<Entry>, k: nat, cur: seq<nat>, cur': seq<nat>,
                       F: nat,
                       order: seq<nat>, pos: nat)
    requires Inv(terms, live, k, h, cur, F) && IsPerm(order, |terms|) && SortedTo(terms, cur, order, |order|)
    requires pos < |order| && Open(terms, cur, order[pos]) && TooLow(terms, cur, Front(order, pos), Threshold(h, k))
    requires MovedTo(terms, cur, cur', At(terms, cur, order[pos]))
    ensures Moved(terms, h, k, cur, cur')
  {
    forall t, i | 0 <= t < |terms| && cur[t] <= i < cur'[t] ensures Hopeless(terms, h, k, terms[t].ords[i]) {
      var d := terms[t].ords[i];
      assert HasRow(terms[t], d, i) && Open(terms, cur, t);
      assert At(terms, cur, t) <= d;
      if Ready(terms, cur, d) {
        RowsBeforePivot(terms, cur, order, pos, d);
        BeforePivot(terms, h, k, cur, Front(order, pos), d);
      }
    }
  }

  // ---------------------------------------------------------------------------------------
  // Scoring the pivot
  // ---------------------------------------------------------------------------------------

  method ScorePivot(terms: seq<Term>, cur: seq<nat>, d: uint64) returns (score: real)
    requires ValidTerms(terms) && Cursors(terms, cur)
    ensures score == ScoreAt(terms, cur, d, |terms|)
  {
    score := 0.0;
    for t := 0 to |terms|
      invariant score == ScoreAt(terms, cur, d, t)
    {
      if IsAt(terms, cur, t, d) {
        score := score + terms[t].contribs[cur[t]];
      }
    }
  }

  /** All lists leave the pivot. */
  method Advance(terms: seq<Term>, cur: seq<nat>, d: uint64) returns (cur': seq<nat>)
    requires ValidTerms(terms) && Cursors(terms, cur)
    ensures MovedTo(terms, cur, cur', d as int + 1)
    ensures forall t :: 0 <= t < |terms| && Open(terms, cur', t) ==> At(terms, cur', t) > d
  {
    cur' := cur;
    for t := 0 to |terms|
      invariant MovedTo(terms, cur, cur', d as int + 1)
      invariant |cur'| == |cur| && forall u :: t <= u < |terms| ==> cur'[u] == cur[u]
      invariant forall u :: 0 <= u < t && Open(terms, cur', u) ==> At(terms, cur', u) > d
    {
      var c: nat := cur'[t];
      while c < |terms[t].ords| && terms[t].ords[c] <= d
        invariant cur[t] <= c <= |terms[t].ords| && forall i :: cur[t] <= i < c ==> terms[t].ords[i] <= d
      {
        c := c + 1;
      }
      ghost var last := cur';
      cur' := cur'[t := c];
      assert forall u :: 0 <= u < t && Open(terms, cur', u) ==>
               Open(terms, last, u) && At(terms, cur', u) == At(terms, last, u);
    }
  }

  /** No document between F and the pivot can get in, and none of them is in: the heap is right up to the pivot. */
  lemma UpToPivot(terms: seq<Term>, live: uint64 -> bool, h: seq<Entry>, k: nat, cur: seq<nat>, F: nat, d: uint64)
    requires Inv(terms, live, k, h, cur, F) && F <= d
    requires forall t :: 0 <= t < |terms| && Open(terms, cur, t) ==> At(terms, cur, t) >= d
    ensures IsTopK(h, k, Candidates(terms, live, d))
  {
    var before, after := Candidates(terms, live, F), Candidates(terms, live, d);
    forall e | e in after ensures e in h || (|h| == k && Better(h[k - 1], e)) {
      if e.ord < F {
        assert e in before;
      } else {
        NotReady(terms, cur, e.ord, d);
        assert h != [] && h[k - 1] in h && h[k - 1] in before;
      }
    }
    forall e | e in h ensures e in after {
      assert e in before;
    }
  }

  lemma Passed(s: seq<uint64>, c: nat, i: nat, pivot: uint64)
    requires Ascending(s) && i < |s| && c <= |s| && s[i] < pivot && (c < |s| ==> s[c] >= pivot)
    ensures i < c
  {
  }

  lemma NotReady(terms: seq<Term>, cur: seq<nat>, d: uint64, pivot: uint64)
    requires ValidTerms(terms) && Cursors(terms, cur) && IsDoc(terms, d) && d < pivot
    requires forall t :: 0 <= t < |terms| && Open(terms, cur, t) ==> At(terms, cur, t) >= pivot
    ensures !Ready(terms, cur, d)
  {
    var t: nat, i: nat :| t < |terms| && HasRow(terms[t], d, i);
    assert Open(terms, cur, t) ==> At(terms, cur, t) >= pivot;
    Passed(terms[t].ords, cur[t], i, pivot);
  }

  lemma NextCandidates(terms: seq<Term>, live: uint64 -> bool, d: uint64)
    requires ValidTerms(terms) && IsDoc(terms, d)
    ensures Candidates(terms, live, d as int + 1)
         == Candidates(terms, live, d) + if live(d) then iset{Entry(Full(terms, d, |terms|), d)} else iset{}
  {
  }

  /** The pivot is scored and offered. If a cursor has gone past it the score is too small, but then it would not get
      in with its whole score either. */
  method OfferPivot(terms: seq<Term>, live: uint64 -> bool, h: seq<Entry>, k: nat, cur: seq<nat>, ghost F: nat,
                    d: uint64)
      returns (h': seq<Entry>)
    requires Inv(terms, live, k, h, cur, F) && F <= d && IsDoc(terms, d)
    requires forall t :: 0 <= t < |terms| && Open(terms, cur, t) ==> At(terms, cur, t) >= d
    ensures IsTopK(h', k, Candidates(terms, live, d as int + 1))
    ensures |h| == k ==> |h'| == k && h'[k - 1].score >= h[k - 1].score
  {
    h' := h;
    UpToPivot(terms, live, h, k, cur, F, d);
    NextCandidates(terms, live, d);
    ghost var before, e := Candidates(terms, live, d), Entry(Full(terms, d, |terms|), d);
    assert before + iset{} == before;
    assert forall x :: x in h ==> x in before;
    if live(d) {
      var score := ScorePivot(terms, cur, d);
      ScoreAtMostFull(terms, cur, d, |terms|);
      if Ready(terms, cur, d) {
        ScoreIsFull(terms, cur, d, |terms|);
      }
      if |h| == k && e.score <= h[k - 1].score {
        assert h[k - 1] in h;
        NotAmongThem(h, k, before, e);
      }
      if score >= Threshold(h, k) {
        h' := Offer(h, k, score, d, before);
      }
    }
  }

  lemma PivotIsLeast(terms: seq<Term>, cur: seq<nat>, order: seq<nat>, pos: nat)
    requires Cursors(terms, cur) && IsPerm(order, |terms|) && SortedTo(terms, cur, order, |order|)
    requires pos < |order| && Open(terms, cur, order[pos])
    requires forall i :: 0 <= i < pos && Open(terms, cur, order[i]) ==>
               At(terms, cur, order[i]) >= At(terms, cur, order[pos])
    ensures forall t :: 0 <= t < |terms| && Open(terms, cur, t) ==> At(terms, cur, t) >= At(terms, cur, order[pos])
  {
    forall t: nat | t < |terms| && Open(terms, cur, t) ensures At(terms, cur, t) >= At(terms, cur, order[pos]) {
      assert t in order;
      var j :| 0 <= j < |order| && order[j] == t;
      if j > pos {
        assert Rank(terms, cur, order[pos]) <= Rank(terms, cur, order[j]);
      }
    }
  }

  lemma PivotKeeps(terms: seq<Term>, live: uint64 -> bool, h: seq<Entry>, h': seq<Entry>, k: nat, cur: seq<nat>,
                   cur': seq<nat>, F: nat, d: uint64)
    requires Inv(terms, live, k, h, cur, F) && F <= d && IsTopK(h', k, Candidates(terms, live, d as int + 1))
    requires |h| == k ==> |h'| == k && h'[k - 1].score >= h[k - 1].score
    requires MovedTo(terms, cur, cur', d as int + 1)
    requires forall t :: 0 <= t < |terms| && Open(terms, cur', t) ==> At(terms, cur', t) > d
    ensures Inv(terms, live, k, h', cur', d as int + 1)
  {
    forall x: uint64 | x >= d as int + 1 && IsDoc(terms, x) ensures Ready(terms, cur', x) || Hopeless(terms, h', k, x) {
      if Ready(terms, cur, x) {
        forall t, i | 0 <= t < |terms| && HasRow(terms[t], x, i) ensures cur'[t] <= i {
          assert cur[t] <= i;
        }
      } else {
        assert Hopeless(terms, h, k, x);
      }
    }
  }

  /** When the open lists together cannot reach the threshold, the search is over. */
  lemma Finished(terms: seq<Term>, live: uint64 -> bool, h: seq<Entry>, k: nat, cur: seq<nat>, F: nat, P: set<nat>)
    requires Inv(terms, live, k, h, cur, F) && TooLow(terms, cur, P, Threshold(h, k))
    requires forall t: nat :: t < |terms| ==> t in P
    ensures IsTopK(h, k, Candidates(terms, live, UINT64_MAX as int + 1))
  {
    var before, after := Candidates(terms, live, F), Candidates(terms, live, UINT64_MAX as int + 1);
    forall e | e in after ensures e in h || (|h| == k && Better(h[k - 1], e)) {
      if e.ord < F {
        assert e in before;
      } else {
        if Ready(terms, cur, e.ord) {
          BeforePivot(terms, h, k, cur, P, e.ord);
        }
        assert h != [] && h[k - 1] in h && h[k - 1] in before;
      }
    }
    forall e | e in h ensures e in after {
      assert e in before;
    }
  }

  // ---------------------------------------------------------------------------------------
  // The search
  // ---------------------------------------------------------------------------------------

  ghost function Left(terms: seq<Term>, cur: seq<nat>, n: nat): nat
    requires Cursors(terms, cur) && n <= |terms|
  {
    if n == 0 then 0 else Left(terms, cur, n - 1) + (|terms[n - 1].ords| - cur[n - 1])
  }

  lemma {:induction false} LeftShrinks(terms: seq<Term>, cur: seq<nat>, cur': seq<nat>, n: nat)
    requires Cursors(terms, cur) && Cursors(terms, cur') && n <= |terms|
    requires forall t :: 0 <= t < |terms| ==> cur[t] <= cur'[t]
    ensures Left(terms, cur', n) <= Left(terms, cur, n)
    ensures (exists t :: 0 <= t < n && cur[t] < cur'[t]) ==> Left(terms, cur', n) < Left(terms, cur, n)
  {
    if n > 0 {
      LeftShrinks(terms, cur, cur', n - 1);
    }
  }

  lemma SomeMoved(terms: seq<Term>, cur: seq<nat>, cur': seq<nat>)
    requires Cursors(terms, cur) && Cursors(terms, cur') && cur != cur'
    requires forall t :: 0 <= t < |terms| ==> cur[t] <= cur'[t]
    ensures Left(terms, cur', |terms|) < Left(terms, cur, |terms|)
  {
    LeftShrinks(terms, cur, cur', |terms|);
  }

  lemma AllInFront(order: seq<nat>)
    requires IsPerm(order, |order|)
    ensures forall t: nat :: t < |order| ==> t in Front(order, |order|)
  {
    assert order[..|order|] == order;
    forall t: nat | t < |order| ensures t in Front(order, |order|) {
      assert t in order;
    }
  }

  lemma InOwnPlaces(order: seq<nat>)
    requires forall i :: 0 <= i < |order| ==> order[i] == i
    ensures IsPerm(order, |order|)
  {
    forall t: nat | t < |order| ensures t in order {
      assert order[t] == t;
    }
  }

  /** The lists in front of the pivot catch up with it, or all have. */
  method CatchUp(terms: seq<Term>, ghost live: uint64 -> bool, ghost h: seq<Entry>, k: nat, cur: seq<nat>, ghost F: nat,
                 order: seq<nat>, pos: nat) returns (cur': seq<nat>, moved: bool)
    requires Inv(terms, live, k, h, cur, F) && IsPerm(order, |terms|) && SortedTo(terms, cur, order, |order|)
    requires pos < |order| && Open(terms, cur, order[pos]) && TooLow(terms, cur, Front(order, pos), Threshold(h, k))
    ensures Inv(terms, live, k, h, cur', F)
    ensures moved ==> Left(terms, cur', |terms|) < Left(terms, cur, |terms|)
    ensures !moved ==> cur' == cur
    ensures !moved ==>
              forall t :: 0 <= t < |terms| && Open(terms, cur, t) ==> At(terms, cur, t) >= At(terms, cur, order[pos])
  {
    cur', moved := Align(terms, cur, order, pos, At(terms, cur, order[pos]));
    if moved {
      AlignedIsMoved(terms, live, h, k, cur, cur', F, order, pos);
      MovedKeeps(terms, live, k, h, cur, cur', F);
      SomeMoved(terms, cur, cur');
    } else {
      PivotIsLeast(terms, cur, order, pos);
    }
  }

  /** Blocks are left, or there is none to leave. */
  method LeaveBlocks(terms: seq<Term>, ghost live: uint64 -> bool, h: seq<Entry>, k: nat, cur: seq<nat>, ghost F: nat,
                     order: seq<nat>, pos: nat, d: uint64) returns (cur': seq<nat>, moved: bool)
    requires Inv(terms, live, k, h, cur, F) && IsPerm(order, |terms|) && pos < |order|
    ensures Inv(terms, live, k, h, cur', F)
    ensures moved ==> Left(terms, cur', |terms|) < Left(terms, cur, |terms|)
    ensures !moved ==> cur' == cur
  {
    cur', moved := SkipBlocks(terms, cur, order, pos, d, |h| >= k, Threshold(h, k));
    if moved {
      SkippedIsMoved(terms, live, h, k, cur, cur', F);
      MovedKeeps(terms, live, k, h, cur, cur', F);
      SomeMoved(terms, cur, cur');
    }
  }

  /** The pivot is scored, and all lists leave it. */
  method ScoreAndLeave(terms: seq<Term>, live: uint64 -> bool, h: seq<Entry>, k: nat, cur: seq<nat>, ghost F: nat,
                       d: uint64, ghost x: nat)
      returns (h': seq<Entry>, cur': seq<nat>)
    requires Inv(terms, live, k, h, cur, F) && x < |terms| && IsAt(terms, cur, x, d)
    requires forall t :: 0 <= t < |terms| && Open(terms, cur, t) ==> At(terms, cur, t) >= d
    ensures Inv(terms, live, k, h', cur', d as int + 1)
    ensures Left(terms, cur', |terms|) < Left(terms, cur, |terms|)
  {
    assert HasRow(terms[x], d, cur[x]);
    h' := OfferPivot(terms, live, h, k, cur, F, d);
    cur' := Advance(terms, cur, d);
    PivotKeeps(terms, live, h, h', k, cur, cur', F, d);
    assert Open(terms, cur', x) ==> At(terms, cur', x) > d;
    assert cur'[x] != cur[x];
    SomeMoved(terms, cur, cur');
  }

  /** The result is the best k of all live documents that any term occurs in, each with its whole score. */
  method Search(terms: seq<Term>, live: uint64 -> bool, k: nat) returns (results: seq<Entry>)
    requires k > 0 && ValidTerms(terms)
    ensures IsTopK(results, k, Candidates(terms, live, UINT64_MAX as int + 1))
  {
    var cur := seq(|terms|, _ => 0);
    var order: seq<nat> := seq(|terms|, i requires 0 <= i < |terms| => i);
    var h: seq<Entry> := [];
    ghost var F: nat := 0;
    InOwnPlaces(order);
    assert Inv(terms, live, k, h, cur, F);
    while true
      invariant Inv(terms, live, k, h, cur, F) && IsPerm(order, |terms|)
      decreases Left(terms, cur, |terms|)
    {
      order := SortOrder(terms, cur, order);
      var pos := FindPivot(terms, cur, order, Threshold(h, k));
      if pos == None {
        AllInFront(order);
        Finished(terms, live, h, k, cur, F, Front(order, |order|));
        break;
      }
      var d := At(terms, cur, order[pos.value]);
      var cur', moved := CatchUp(terms, live, h, k, cur, F, order, pos.value);
      if !moved {
        cur', moved := LeaveBlocks(terms, live, h, k, cur, F, order, pos.value, d);
      }
      if moved {
        cur := cur';
        continue;
      }
      h, cur := ScoreAndLeave(terms, live, h, k, cur, F, d, order[pos.value]);
      F := d as int + 1;
    }
    results := Drain(h);
  }
}
