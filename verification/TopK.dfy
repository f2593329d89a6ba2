/**
  The best k of a set of scored documents (src/bm25/bm25_search_impl.hpp): more score first, smaller ord among
  equals. The heap is kept as the sequence in which it would be drained, best first.
 */
module TopK {
  import opened Bytes

  datatype Entry = Entry(score: real, ord: uint64)

  predicate Better(a: Entry, b: Entry) {
    if a.score != b.score then a.score > b.score else a.ord < b.ord
  }

  ghost predicate Ranked(h: seq<Entry>) {
    forall i, j :: 0 <= i < j < |h| ==> Better(h[i], h[j])
  }

  /** h are the k best of all, or all if there are fewer, in order. */
  ghost predicate IsTopK(h: seq<Entry>, k: nat, all: iset<Entry>) {
    && Ranked(h) && |h| <= k
    && (forall e :: e in h ==> e in all)
    && (forall e :: e in all ==> e in h || (|h| == k && (k == 0 || Better(h[k - 1], e))))
  }

  /** What the best k are: nobody who is left out scores more than anyone who is in, or as much with a smaller ord. */
  lemma TopKMeans(h: seq<Entry>, k: nat, all: iset<Entry>)
    requires IsTopK(h, k, all)
    ensures forall x, e :: x in h && e in all && e !in h ==> x.score > e.score || (x.score == e.score && x.ord < e.ord)
    ensures (exists e :: e in all && e !in h) ==> |h| == k
    ensures forall i, j :: 0 <= i < j < |h| ==>
              h[i].score > h[j].score || (h[i].score == h[j].score && h[i].ord < h[j].ord)
  {
    forall x, e | x in h && e in all && e !in h ensures Better(x, e) {
      var i :| 0 <= i < |h| && h[i] == x;
      assert i < k - 1 ==> Better(h[i], h[k - 1]);
    }
    forall i, j | 0 <= i < j < |h| ensures Better(h[i], h[j]) {
    }
  }

  lemma FirstIsBest(h: seq<Entry>, k: nat, all: iset<Entry>)
    requires k > 0 && IsTopK(h, k, all)
    ensures h == [] ==> all == iset{}
    ensures h != [] ==> h[0] in all && forall e :: e in all ==> e == h[0] || Better(h[0], e)
  {
    forall e | e in all && h != [] ensures e == h[0] || Better(h[0], e) {
      if e in h {
        var i :| 0 <= i < |h| && h[i] == e;
      }
    }
  }

  lemma RestIsTopK(h: seq<Entry>, k: nat, all: iset<Entry>)
    requires k > 0 && h != [] && IsTopK(h, k, all)
    ensures IsTopK(h[1..], k - 1, all - iset{h[0]})
  {
    assert h == [h[0]] + h[1..];
    forall e | e in h[1..] ensures e in all - iset{h[0]} {
      var i :| 0 <= i < |h[1..]| && h[1..][i] == e;
      assert Better(h[0], h[i + 1]);
    }
  }

  /** There is only one answer. */
  lemma {:induction false} TopKIsUnique(a: seq<Entry>, b: seq<Entry>, k: nat, all: iset<Entry>)
    requires IsTopK(a, k, all) && IsTopK(b, k, all)
    ensures a == b
    decreases k
  {
    if k > 0 {
      FirstIsBest(a, k, all);
      FirstIsBest(b, k, all);
      if a != [] {
        assert a[0] in all;
        RestIsTopK(a, k, all);
        RestIsTopK(b, k, all);
        TopKIsUnique(a[1..], b[1..], k - 1, all - iset{a[0]});
        assert a == [a[0]] + a[1..] && b == [b[0]] + b[1..];
      }
    }
  }

  /** A document that comes after all others and does not score above the last of a full heap does not get in. */
  lemma NotAmongThem(h: seq<Entry>, k: nat, all: iset<Entry>, e: Entry)
    requires k > 0 && IsTopK(h, k, all) && |h| == k && e.score <= h[k - 1].score && h[k - 1].ord < e.ord
    ensures IsTopK(h, k, all + iset{e})
  {
  }

  lemma InsertRanked(h: seq<Entry>, e: Entry, j: nat)
    requires Ranked(h) && j <= |h| && forall x :: x in h ==> x.ord < e.ord
    requires (forall i :: j <= i < |h| ==> Better(e, h[i])) && (j > 0 ==> !Better(e, h[j - 1]))
    ensures Ranked(h[..j] + [e] + h[j..])
  {
    if j > 0 {
      assert h[j - 1] in h;
      assert Better(h[j - 1], e);
    }
    var r := h[..j] + [e] + h[j..];
    forall x, y | 0 <= x < y < |r| ensures Better(r[x], r[y]) {
      if x < j - 1 {
        assert Better(h[x], h[j - 1]);
      }
    }
  }

  /** priority_queue::push */
  method Push(h: seq<Entry>, e: Entry) returns (r: seq<Entry>)
    requires Ranked(h) && forall x :: x in h ==> x.ord < e.ord
    ensures Ranked(r) && |r| == |h| + 1 && forall x :: x in r <==> x in h || x == e
    ensures r[|h|] == e || (h != [] && r[|h|] == h[|h| - 1])
    ensures r[|h|] == e || Better(e, r[|h|])
    ensures h != [] ==> r[|h|] == h[|h| - 1] || Better(h[|h| - 1], r[|h|])
  {
    var j: nat := |h|;
    while j > 0 && Better(e, h[j - 1])
      invariant j <= |h| && forall i :: j <= i < |h| ==> Better(e, h[i])
    {
      j := j - 1;
    }
    InsertRanked(h, e, j);
    r := h[..j] + [e] + h[j..];
    assert h == h[..j] + h[j..];
    if j == |h| && h != [] {
      assert h[j - 1] in h;
    }
  }

  lemma PushedIsTopK(h: seq<Entry>, k: nat, all: iset<Entry>, e: Entry, r: seq<Entry>)
    requires IsTopK(h, k, all) && |h| < k && Ranked(r) && |r| == |h| + 1
    requires forall x :: x in r <==> x in h || x == e
    ensures IsTopK(r, k, all + iset{e})
  {
  }

  lemma ReplacedIsTopK(h: seq<Entry>, k: nat, all: iset<Entry>, e: Entry, r: seq<Entry>)
    requires k > 0 && IsTopK(h, k, all) && |h| == k && e.score > h[k - 1].score && Ranked(r) && |r| == k
    requires forall x :: x in r <==> x in h[..k - 1] || x == e
    requires r[k - 1] == e || (k > 1 && r[k - 1] == h[k - 2])
    ensures IsTopK(r, k, all + iset{e})
  {
    assert h == h[..k - 1] + [h[k - 1]];
    assert Better(r[k - 1], h[k - 1]);
  }

  /** How good a document must be to be of use. */
  function Threshold(h: seq<Entry>, k: nat): real
    requires k > 0
  {
    if |h| == k then h[k - 1].score else 0.0
  }

  /** Offers come in ascending order of ord, so comparing scores decides: the heap stays the best k. */
  method Offer(h: seq<Entry>, k: nat, score: real, ord: uint64, ghost all: iset<Entry>) returns (r: seq<Entry>)
    requires k > 0 && IsTopK(h, k, all) && forall x :: x in h ==> x.ord < ord
    ensures IsTopK(r, k, all + iset{Entry(score, ord)})
    ensures |r| >= |h| && (|h| == k ==> r[k - 1].score >= h[k - 1].score)
    ensures |h| == k && score <= h[k - 1].score ==> r == h
    ensures forall x :: x in r ==> x.ord <= ord
  {
    var e := Entry(score, ord);
    if |h| < k {
      r := Push(h, e);
      PushedIsTopK(h, k, all, e, r);
    } else if score > h[k - 1].score {
      r := Push(h[..k - 1], e);
      ReplacedIsTopK(h, k, all, e, r);
    } else {
      r := h;
      assert h[k - 1] in h;
      NotAmongThem(h, k, all, e);
    }
  }

  /** The heap gives the worst first; the results are what it gives, turned around. */
  method Drain(h: seq<Entry>) returns (results: seq<Entry>)
    ensures results == h
  {
    var heap := h;
    results := [];
    while heap != []
      invariant |heap| <= |h| && heap == h[..|heap|] && |results| == |h| - |heap|
      invariant forall i :: 0 <= i < |results| ==> results[i] == h[|h| - 1 - i]
      decreases |heap|
    {
      results := results + [heap[|heap| - 1]];
      heap := heap[..|heap| - 1];
    }
    results := seq(|h|, i requires 0 <= i < |h| => results[|h| - 1 - i]);
  }
}
