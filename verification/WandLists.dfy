/**
  Posting lists as block-max WAND sees them (src/bm25/bm25_search_impl.hpp 273-380): what every posting of a term
  adds to its document's score, and bounds of that for the whole list and for its blocks. What a document
  scores, and when it is certain that it cannot be among the best k.
 */
module WandLists {
  import opened Bytes
  import opened TopK
  import PostingRows
  import Bm25

  datatype Term = Term(ords: seq<uint64>, contribs: seq<real>, listUb: real, blocks: seq<PostingRows.Block>,
                       blockUbs: seq<real>)

  ghost predicate Ascending(s: seq<uint64>) {
    forall i, j :: 0 <= i < j < |s| ==> s[i] < s[j]
  }

  ghost predicate ValidBlock(t: Term, b: nat)
    requires b < |t.blocks| && |t.blockUbs| == |t.blocks| && |t.contribs| == |t.ords|
  {
    var blk := t.blocks[b];
    && blk.count > 0 && blk.start + blk.count <= |t.ords|
    && blk.baseOrd == t.ords[blk.start] && blk.endOrd == t.ords[blk.start + blk.count - 1]
    && forall i :: blk.start <= i < blk.start + blk.count ==> t.contribs[i] <= t.blockUbs[b]
  }

  ghost predicate ValidTerm(t: Term) {
    && |t.contribs| == |t.ords| && |t.blockUbs| == |t.blocks| && Ascending(t.ords)
    && t.listUb >= 0.0 && (forall i :: 0 <= i < |t.ords| ==> 0.0 <= t.contribs[i] <= t.listUb)
    && forall b :: 0 <= b < |t.blocks| ==> ValidBlock(t, b)
  }

  ghost predicate ValidTerms(terms: seq<Term>) {
    forall t :: 0 <= t < |terms| ==> ValidTerm(terms[t])
  }

  // ---------------------------------------------------------------------------------------
  // What documents score
  // ---------------------------------------------------------------------------------------

  predicate HasRow(t: Term, d: uint64, i: nat) {
    i < |t.ords| && t.ords[i] == d
  }

  function IndexOf(s: seq<uint64>, d: uint64): (i: nat)
    requires d in s
    ensures i < |s| && s[i] == d
  {
    if s[0] == d then 0 else IndexOf(s[1..], d) + 1
  }

  /** What a term adds to the score of a document. */
  function Posting(t: Term, d: uint64): real
    requires |t.contribs| == |t.ords|
  {
    if d in t.ords then t.contribs[IndexOf(t.ords, d)] else 0.0
  }

  lemma PostingAt(t: Term, i: nat)
    requires ValidTerm(t) && i < |t.ords|
    ensures Posting(t, t.ords[i]) == t.contribs[i]
  {
    var j := IndexOf(t.ords, t.ords[i]);
    assert !(i < j) && !(j < i);
  }

  /** The score of a document over the first n terms. */
  ghost function Full(terms: seq<Term>, d: uint64, n: nat): real
    requires ValidTerms(terms) && n <= |terms|
  {
    if n == 0 then 0.0 else Full(terms, d, n - 1) + Posting(terms[n - 1], d)
  }

  ghost predicate IsDoc(terms: seq<Term>, d: uint64) {
    exists t, i :: 0 <= t < |terms| && HasRow(terms[t], d, i)
  }

  /** The scored live documents below F. */
  ghost function Candidates(terms: seq<Term>, live: uint64 -> bool, F: nat): iset<Entry>
    requires ValidTerms(terms)
  {
    iset e: Entry | IsCandidate(terms, live, F, e)
  }

  ghost predicate IsCandidate(terms: seq<Term>, live: uint64 -> bool, F: nat, e: Entry)
    requires ValidTerms(terms)
  {
    e.ord < F && live(e.ord) && IsDoc(terms, e.ord) && e.score == Full(terms, e.ord, |terms|)
  }

  // ---------------------------------------------------------------------------------------
  // Cursors
  // ---------------------------------------------------------------------------------------

  ghost predicate Cursors(terms: seq<Term>, cur: seq<nat>) {
    |cur| == |terms| && forall t :: 0 <= t < |terms| ==> cur[t] <= |terms[t].ords|
  }

  /** List t is not used up. */
  predicate Open(terms: seq<Term>, cur: seq<nat>, t: nat)
    requires t < |cur| == |terms|
  {
    cur[t] < |terms[t].ords|
  }

  function At(terms: seq<Term>, cur: seq<nat>, t: nat): uint64
    requires t < |cur| == |terms| && Open(terms, cur, t)
  {
    terms[t].ords[cur[t]]
  }

  /** No cursor has gone past this document. */
  ghost predicate Ready(terms: seq<Term>, cur: seq<nat>, d: uint64)
    requires |cur| == |terms|
  {
    forall t, i :: 0 <= t < |terms| && HasRow(terms[t], d, i) ==> cur[t] <= i
  }

  /** The heap is full and the document does not score above its last. */
  ghost predicate Hopeless(terms: seq<Term>, h: seq<Entry>, k: nat, d: uint64)
    requires ValidTerms(terms) && k > 0
  {
    |h| == k && Full(terms, d, |terms|) <= h[k - 1].score
  }

  /** The heap is right for the documents below F; those from F on are still to come whole, or hopeless. */
  ghost predicate Inv(terms: seq<Term>, live: uint64 -> bool, k: nat, h: seq<Entry>, cur: seq<nat>, F: nat) {
    && k > 0 && ValidTerms(terms) && Cursors(terms, cur)
    && IsTopK(h, k, Candidates(terms, live, F))
    && (forall t :: 0 <= t < |terms| && Open(terms, cur, t) ==> At(terms, cur, t) >= F)
    && (forall d: uint64 :: d >= F && IsDoc(terms, d) ==> Ready(terms, cur, d) || Hopeless(terms, h, k, d))
  }

  /** Cursors only move over rows of hopeless documents. */
  ghost predicate Moved(terms: seq<Term>, h: seq<Entry>, k: nat, cur: seq<nat>, cur': seq<nat>)
    requires ValidTerms(terms) && k > 0
  {
    && Cursors(terms, cur) && Cursors(terms, cur')
    && (forall t :: 0 <= t < |terms| ==> cur[t] <= cur'[t])
    && (forall t, i :: 0 <= t < |terms| && cur[t] <= i < cur'[t] ==> Hopeless(terms, h, k, terms[t].ords[i]))
  }

  lemma MovedKeeps(terms: seq<Term>, live: uint64 -> bool, k: nat, h: seq<Entry>, cur: seq<nat>, cur': seq<nat>, F: nat)
    requires Inv(terms, live, k, h, cur, F) && Moved(terms, h, k, cur, cur')
    ensures Inv(terms, live, k, h, cur', F)
  {
    forall t | 0 <= t < |terms| && Open(terms, cur', t) ensures At(terms, cur', t) >= F {
      assert Open(terms, cur, t);
      assert terms[t].ords[cur[t]] <= terms[t].ords[cur'[t]];
    }
    forall d: uint64 | d >= F && IsDoc(terms, d) ensures Ready(terms, cur', d) || Hopeless(terms, h, k, d) {
      if Ready(terms, cur, d) && !Ready(terms, cur', d) {
        var t: nat, i: nat :| t < |terms| && HasRow(terms[t], d, i) && i < cur'[t];
        assert cur[t] <= i;
        assert Hopeless(terms, h, k, terms[t].ords[i]);
      }
    }
  }

  // ---------------------------------------------------------------------------------------
  // Bounds
  // ---------------------------------------------------------------------------------------

  /** The list bounds of the open lists in P, over the first n terms. */
  ghost function UbSum(terms: seq<Term>, cur: seq<nat>, P: set<nat>, n: nat): real
    requires |cur| == |terms| && n <= |terms|
  {
    if n == 0 then 0.0
    else UbSum(terms, cur, P, n - 1) + if n - 1 in P && Open(terms, cur, n - 1) then terms[n - 1].listUb else 0.0
  }

  lemma {:induction false} UbSumNonNegative(terms: seq<Term>, cur: seq<nat>, P: set<nat>, n: nat)
    requires ValidTerms(terms) && |cur| == |terms| && n <= |terms|
    ensures UbSum(terms, cur, P, n) >= 0.0
  {
    if n > 0 {
      UbSumNonNegative(terms, cur, P, n - 1);
    }
  }

  lemma {:induction false} UbSumAdds(terms: seq<Term>, cur: seq<nat>, P: set<nat>, x: nat, n: nat)
    requires |cur| == |terms| && n <= |terms| && x < |terms| && x !in P
    ensures UbSum(terms, cur, P + {x}, n) == UbSum(terms, cur, P, n)
              + if x < n && Open(terms, cur, x) then terms[x].listUb else 0.0
  {
    if n > 0 {
      UbSumAdds(terms, cur, P, x, n - 1);
    }
  }

  lemma {:induction false} UbSumNone(terms: seq<Term>, cur: seq<nat>, P: set<nat>, n: nat)
    requires |cur| == |terms| && n <= |terms| && P == {}
    ensures UbSum(terms, cur, P, n) == 0.0
  {
    if n > 0 {
      UbSumNone(terms, cur, P, n - 1);
    }
  }

  /** The document's rows lie at or behind the cursors of lists in P. */
  ghost predicate Within(terms: seq<Term>, cur: seq<nat>, P: set<nat>, d: uint64)
    requires |cur| == |terms|
  {
    forall t, i :: 0 <= t < |terms| && HasRow(terms[t], d, i) ==> t in P && cur[t] <= i
  }

  /** A document that occurs only in lists of P does not score above the sum of their bounds. */
  lemma {:induction false} FullWithin(terms: seq<Term>, cur: seq<nat>, P: set<nat>, d: uint64, n: nat)
    requires ValidTerms(terms) && |cur| == |terms| && n <= |terms| && Within(terms, cur, P, d)
    ensures Full(terms, d, n) <= UbSum(terms, cur, P, n)
  {
    if n > 0 {
      FullWithin(terms, cur, P, d, n - 1);
      if d in terms[n - 1].ords {
        assert HasRow(terms[n - 1], d, IndexOf(terms[n - 1].ords, d));
      }
    }
  }

  /** The list bounds of all open lists. */
  ghost function TotalUb(terms: seq<Term>, cur: seq<nat>, n: nat): real
    requires |cur| == |terms| && n <= |terms|
  {
    if n == 0 then 0.0 else TotalUb(terms, cur, n - 1) + if Open(terms, cur, n - 1) then terms[n - 1].listUb else 0.0
  }

  /** The same with the bound of a block for the list x. */
  lemma {:induction false} FullInBlock(terms: seq<Term>, cur: seq<nat>, d: uint64, x: nat, ub: real, n: nat)
    requires ValidTerms(terms) && |cur| == |terms| && n <= |terms| && Ready(terms, cur, d)
    requires x < |terms| && Open(terms, cur, x) && Posting(terms[x], d) <= ub
    ensures Full(terms, d, n) <= TotalUb(terms, cur, n) - if x < n then terms[x].listUb - ub else 0.0
  {
    if n > 0 {
      FullInBlock(terms, cur, d, x, ub, n - 1);
      if d in terms[n - 1].ords {
        assert HasRow(terms[n - 1], d, IndexOf(terms[n - 1].ords, d));
      }
    }
  }

  // ---------------------------------------------------------------------------------------
  // Scoring at the cursors
  // ---------------------------------------------------------------------------------------

  predicate IsAt(terms: seq<Term>, cur: seq<nat>, t: nat, d: uint64)
    requires t < |cur| == |terms|
  {
    Open(terms, cur, t) && At(terms, cur, t) == d
  }

  ghost function ScoreAt(terms: seq<Term>, cur: seq<nat>, d: uint64, n: nat): real
    requires ValidTerms(terms) && |cur| == |terms| && n <= |terms|
  {
    if n == 0 then 0.0
    else ScoreAt(terms, cur, d, n - 1) + if IsAt(terms, cur, n - 1, d) then terms[n - 1].contribs[cur[n - 1]] else 0.0
  }

  /** Cursors that have gone past a row only make the score smaller. */
  lemma {:induction false} ScoreAtMostFull(terms: seq<Term>, cur: seq<nat>, d: uint64, n: nat)
    requires ValidTerms(terms) && |cur| == |terms| && n <= |terms|
    ensures 0.0 <= ScoreAt(terms, cur, d, n) <= Full(terms, d, n)
  {
    if n > 0 {
      ScoreAtMostFull(terms, cur, d, n - 1);
      if IsAt(terms, cur, n - 1, d) {
        PostingAt(terms[n - 1], cur[n - 1]);
      }
    }
  }

  /** If no cursor has gone past the document and none is before it, it is scored whole. */
  lemma {:induction false} ScoreIsFull(terms: seq<Term>, cur: seq<nat>, d: uint64, n: nat)
    requires ValidTerms(terms) && |cur| == |terms| && n <= |terms| && Ready(terms, cur, d)
    requires forall t :: 0 <= t < |terms| && Open(terms, cur, t) ==> d <= At(terms, cur, t)
    ensures ScoreAt(terms, cur, d, n) == Full(terms, d, n)
  {
    if n > 0 {
      ScoreIsFull(terms, cur, d, n - 1);
      var t := terms[n - 1];
      if d in t.ords {
        var i := IndexOf(t.ords, d);
        assert HasRow(t, d, i);
        assert Open(terms, cur, n - 1) && d <= At(terms, cur, n - 1);
        assert !(cur[n - 1] < i);
      }
    }
  }

  // ---------------------------------------------------------------------------------------
  // The lists of an index
  // ---------------------------------------------------------------------------------------

  /** What a posting list with sealed blocks becomes: the bound of the list uses its largest tf and the shortest
      document there can be, those of the blocks what the blocks store. */
  ghost function TermOf(ords: seq<uint64>, tfs: seq<uint32>, dls: seq<uint32>, blocks: seq<PostingRows.Block>,
                        maxTf: uint32,
                        p: Bm25.Params, idf: real, avgdl: real): Term
    requires |ords| == |tfs| == |dls| && Bm25.Admissible(p, idf, avgdl)
    requires (forall i :: 0 <= i < |dls| ==> dls[i] > 0) && forall b :: 0 <= b < |blocks| ==> blocks[b].minDl > 0
  {
    Term(ords,
         seq(|ords|, i requires 0 <= i < |ords| => Score(tfs[i], dls[i], p, idf, avgdl)),
         Score(maxTf, 1, p, idf, avgdl),
         blocks,
         seq(|blocks|, b requires 0 <= b < |blocks| => Score(blocks[b].maxTf, blocks[b].minDl, p, idf, avgdl)))
  }

  ghost function Score(tf: uint32, dl: uint32, p: Bm25.Params, idf: real, avgdl: real): real
    requires dl > 0 && Bm25.Admissible(p, idf, avgdl)
  {
    Bm25.NormPositive(dl, p, idf, avgdl);
    Bm25.Score(tf, dl, p, idf, avgdl)
  }

  /** Every block, full or partial, covers the rows that it was computed from. */
  lemma SealedCovers(blocks: seq<PostingRows.Block>, ords: seq<uint64>, tfs: seq<uint32>, dls: seq<uint32>, b: nat)
      returns (start: nat, end: nat)
    requires |ords| == |tfs| == |dls| && PostingRows.Sealed(blocks, ords, tfs, dls, |ords|) && b < |blocks|
    ensures start < end <= |ords| && blocks[b] == PostingRows.BlockOf(ords, tfs, dls, start, end)
  {
    start := PostingRows.BLOCK * b;
    if PostingRows.FullBlocks(blocks, ords, tfs, dls, |ords|) {
      end := start + PostingRows.BLOCK;
    } else {
      end := if b + 1 < |blocks| then start + PostingRows.BLOCK else |ords|;
      if b + 1 < |blocks| {
        assert blocks[..|blocks| - 1][b] == blocks[b];
      }
    }
  }

  lemma SealedMinDl(blocks: seq<PostingRows.Block>, ords: seq<uint64>, tfs: seq<uint32>, dls: seq<uint32>)
    requires |ords| == |tfs| == |dls| && PostingRows.Sealed(blocks, ords, tfs, dls, |ords|)
    ensures forall b :: 0 <= b < |blocks| ==> blocks[b].minDl > 0
  {
    forall b | 0 <= b < |blocks| ensures blocks[b].minDl > 0 {
      var start, end := SealedCovers(blocks, ords, tfs, dls, b);
      PostingRows.MinKnownIsSmallest(dls[start..end]);
    }
  }

  /** Lists whose blocks are sealed as PostingList seals them, and all of whose document lengths are known, meet
      what the search relies on. */
  lemma TermOfIsValid(ords: seq<uint64>, tfs: seq<uint32>, dls: seq<uint32>, blocks: seq<PostingRows.Block>,
                      p: Bm25.Params, idf: real, avgdl: real)
    requires |ords| == |tfs| == |dls| && Ascending(ords) && PostingRows.Sealed(blocks, ords, tfs, dls, |ords|)
    requires Bm25.Admissible(p, idf, avgdl) && forall i :: 0 <= i < |dls| ==> dls[i] > 0
    ensures forall b :: 0 <= b < |blocks| ==> blocks[b].minDl > 0
    ensures ValidTerm(TermOf(ords, tfs, dls, blocks, PostingRows.Max(tfs), p, idf, avgdl))
  {
    SealedMinDl(blocks, ords, tfs, dls);
    var t := TermOf(ords, tfs, dls, blocks, PostingRows.Max(tfs), p, idf, avgdl);
    PostingRows.MaxIsLargest(tfs);
    Bm25.ScoreMonotone(0, 1, PostingRows.Max(tfs), 1, p, idf, avgdl);
    forall i | 0 <= i < |ords| ensures 0.0 <= t.contribs[i] <= t.listUb {
      Bm25.ScoreMonotone(tfs[i], dls[i], PostingRows.Max(tfs), 1, p, idf, avgdl);
    }
    forall b | 0 <= b < |blocks| ensures ValidBlock(t, b) {
      var start, end := SealedCovers(blocks, ords, tfs, dls, b);
      BlockIsValid(ords, tfs, dls, blocks, p, idf, avgdl, b, start, end);
    }
  }

  /** A posting list of an index, with what its term is worth. */
  datatype Postings = Postings(ords: seq<uint64>, tfs: seq<uint32>, dls: seq<uint32>, blocks: seq<PostingRows.Block>,
                               maxTf: uint32, idf: real)

  ghost predicate Scorable(l: Postings, p: Bm25.Params, avgdl: real) {
    && |l.ords| == |l.tfs| == |l.dls| && Bm25.Admissible(p, l.idf, avgdl)
    && (forall i :: 0 <= i < |l.dls| ==> l.dls[i] > 0) && forall b :: 0 <= b < |l.blocks| ==> l.blocks[b].minDl > 0
  }

  ghost predicate AreTermsOf(terms: seq<Term>, lists: seq<Postings>, p: Bm25.Params, avgdl: real) {
    && |terms| == |lists| && (forall t :: 0 <= t < |lists| ==> Scorable(lists[t], p, avgdl))
    && forall t :: 0 <= t < |lists| ==>
         var l := lists[t]; terms[t] == TermOf(l.ords, l.tfs, l.dls, l.blocks, l.maxTf, p, l.idf, avgdl)
  }

  /** The scores of the document's rows in the first n lists, added up. */
  ghost function RowScores(lists: seq<Postings>, rows: seq<nat>, d: uint64, p: Bm25.Params, avgdl: real, n: nat): real
    requires n <= |lists| == |rows| && forall t :: 0 <= t < |lists| ==> Scorable(lists[t], p, avgdl)
  {
    if n == 0 then 0.0
    else
      var l, i := lists[n - 1], rows[n - 1];
      RowScores(lists, rows, d, p, avgdl, n - 1)
        + if i < |l.ords| && l.ords[i] == d then Score(l.tfs[i], l.dls[i], p, l.idf, avgdl) else 0.0
  }

  /** Row numbers at which a document stands, where it occurs at all. */
  ghost predicate RowsOfDoc(lists: seq<Postings>, rows: seq<nat>, d: uint64) {
    |rows| == |lists|
    && forall t :: 0 <= t < |lists| && d in lists[t].ords ==> rows[t] < |lists[t].ords| && lists[t].ords[rows[t]] == d
  }

  /** What a document scores over lists of an index is the sum of the scores of its own rows in them. */
  lemma {:induction false} FullIsRowScores(terms: seq<Term>, lists: seq<Postings>, rows: seq<nat>, d: uint64,
                                           p: Bm25.Params, avgdl: real, n: nat)
    requires AreTermsOf(terms, lists, p, avgdl) && ValidTerms(terms) && n <= |terms| && RowsOfDoc(lists, rows, d)
    ensures Full(terms, d, n) == RowScores(lists, rows, d, p, avgdl, n)
  {
    if n > 0 {
      FullIsRowScores(terms, lists, rows, d, p, avgdl, n - 1);
      var t, l, i := terms[n - 1], lists[n - 1], rows[n - 1];
      assert t == TermOf(l.ords, l.tfs, l.dls, l.blocks, l.maxTf, p, l.idf, avgdl);
      if d in l.ords {
        PostingAt(t, i);
      }
    }
  }

  lemma BlockScore(ords: seq<uint64>, tfs: seq<uint32>, dls: seq<uint32>, blk: PostingRows.Block, start: nat,
                   end: nat, i: nat,
                   p: Bm25.Params, idf: real, avgdl: real)
    requires |ords| == |tfs| == |dls| && start <= i < end <= |ords|
    requires blk == PostingRows.BlockOf(ords, tfs, dls, start, end)
    requires Bm25.Admissible(p, idf, avgdl) && dls[i] > 0 && blk.minDl > 0
    ensures Score(tfs[i], dls[i], p, idf, avgdl) <= Score(blk.maxTf, blk.minDl, p, idf, avgdl)
  {
    Bm25.BlockBound(ords, tfs, dls, start, end, i, p, idf, avgdl);
  }

  lemma BlockIsValid(ords: seq<uint64>, tfs: seq<uint32>, dls: seq<uint32>, blocks: seq<PostingRows.Block>,
                     p: Bm25.Params, idf: real, avgdl: real, b: nat, start: nat, end: nat)
    requires |ords| == |tfs| == |dls| && b < |blocks|
    requires start < end <= |ords| && blocks[b] == PostingRows.BlockOf(ords, tfs, dls, start, end)
    requires Bm25.Admissible(p, idf, avgdl) && forall i :: 0 <= i < |dls| ==> dls[i] > 0
    requires forall b :: 0 <= b < |blocks| ==> blocks[b].minDl > 0
    ensures ValidBlock(TermOf(ords, tfs, dls, blocks, PostingRows.Max(tfs), p, idf, avgdl), b)
  {
    var t := TermOf(ords, tfs, dls, blocks, PostingRows.Max(tfs), p, idf, avgdl);
    forall i | start <= i < end ensures t.contribs[i] <= t.blockUbs[b] {
      ContribInBlock(ords, tfs, dls, blocks, p, idf, avgdl, b, start, end, i, t);
    }
    RowsInBlock(t, b, tfs, dls, start, end);
  }

  lemma ContribInBlock(ords: seq<uint64>, tfs: seq<uint32>, dls: seq<uint32>, blocks: seq<PostingRows.Block>,
                       p: Bm25.Params, idf: real, avgdl: real, b: nat, start: nat, end: nat, i: nat, t: Term)
    requires |ords| == |tfs| == |dls| && b < |blocks| && start <= i < end <= |ords|
    requires blocks[b] == PostingRows.BlockOf(ords, tfs, dls, start, end)
    requires Bm25.Admissible(p, idf, avgdl)
    requires (forall i :: 0 <= i < |dls| ==> dls[i] > 0) && forall b :: 0 <= b < |blocks| ==> blocks[b].minDl > 0
    requires t == TermOf(ords, tfs, dls, blocks, PostingRows.Max(tfs), p, idf, avgdl)
    ensures t.contribs[i] <= t.blockUbs[b]
  {
    BlockScore(ords, tfs, dls, blocks[b], start, end, i, p, idf, avgdl);
  }

  lemma RowsInBlock(t: Term, b: nat, tfs: seq<uint32>, dls: seq<uint32>, start: nat, end: nat)
    requires |t.ords| == |t.contribs| == |tfs| == |dls| && b < |t.blocks| == |t.blockUbs| && start < end <= |t.ords|
    requires t.blocks[b] == PostingRows.BlockOf(t.ords, tfs, dls, start, end)
    requires forall i :: start <= i < end ==> t.contribs[i] <= t.blockUbs[b]
    ensures ValidBlock(t, b)
  {
  }
}
