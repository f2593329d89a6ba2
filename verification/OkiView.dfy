/**
  What the ordered key index answers (include/bitcask/oki_state.hpp): the newest rows are in memory, older ones
  in immutable runs, and a lookup goes through memory and then the runs from the newest. When its answer
  is the winner of all rows ever accepted, and which steps keep it so.
 */
module OkiView {
  import opened Bytes
  import opened OkiRows
  import opened OkiMerge

  // ---------------------------------------------------------------------------------------
  // Splitting rows into the held and the flushed
  // ---------------------------------------------------------------------------------------

  /** The rows whose flag is b, in their order. */
  function Select(rows: seq<Row>, flags: seq<bool>, b: bool): seq<Row>
    requires |flags| == |rows|
    decreases |rows|
  {
    if rows == [] then []
    else
      var n := |rows| - 1;
      var before := Select(rows[..n], flags[..n], b);
      if flags[n] == b then before + [rows[n]] else before
  }

  lemma SelectSnoc(rows: seq<Row>, flags: seq<bool>, r: Row, f: bool, b: bool)
    requires |flags| == |rows|
    ensures Select(rows + [r], flags + [f], b)
              == if f == b then Select(rows, flags, b) + [r] else Select(rows, flags, b)
  {
    assert (rows + [r])[..|rows|] == rows && (flags + [f])[..|rows|] == flags;
  }

  predicate AtMost(a: Option<Row>, b: Option<Row>) {
    a.Some? ==> b.Some? && a.value.ord <= b.value.ord
  }

  /** The winner of all rows is the winner of one part, and not below that of the other. */
  lemma {:induction false} SelectSplits(rows: seq<Row>, flags: seq<bool>, k: Key)
    requires |flags| == |rows|
    ensures var w, held, rest := Win(rows, k), Win(Select(rows, flags, true), k), Win(Select(rows, flags, false), k);
            (w == held || w == rest) && AtMost(held, w) && AtMost(rest, w)
    decreases |rows|
  {
    if rows != [] {
      var n := |rows| - 1;
      var before, kept := rows[..n], Select(rows[..n], flags[..n], flags[n]);
      SelectSplits(before, flags[..n], k);
      assert Select(rows, flags, flags[n]) == kept + [rows[n]];
      assert Select(rows, flags, !flags[n]) == Select(before, flags[..n], !flags[n]);
      WinSnoc(kept, rows[n], k);
      assert Win(rows, k) == Combine(Win(before, k), Candidate(rows[n], k));
    }
  }

  // ---------------------------------------------------------------------------------------
  // What a lookup answers, and when it is right
  // ---------------------------------------------------------------------------------------

  /** Memory first, then the newest run that has the key. */
  function Answer(delta: seq<Row>, runs: seq<seq<Row>>, k: Key): Option<Row> {
    var d := Win(delta, k);
    if d.Some? then d else FirstHit(runs, k)
  }

  function Live(w: Option<Row>): Option<Row> {
    Emit(w, true)
  }

  /** Nothing in the runs is above w. */
  ghost predicate RunsBelow(runs: seq<seq<Row>>, k: Key, w: Option<Row>) {
    forall i :: 0 <= i < |runs| ==> AtMost(Lookup(runs[i], k), w)
  }

  /** What holds of one key: hist are all rows that were accepted, in order of arrival. */
  ghost predicate KeyOk(hist: seq<Row>, delta: seq<Row>, runs: seq<seq<Row>>, wm: nat, k: Key) {
    var w, d := Win(hist, k), Win(delta, k);
    && (d.Some? ==> d == w)
    && (d == None && w.Some? ==>
         w.value.ord < wm && (FirstHit(runs, k) == w || (w.value.tomb && FirstHit(runs, k) == None)))
    && RunsBelow(runs, k, w)
  }

  ghost predicate AllOk(hist: seq<Row>, delta: seq<Row>, runs: seq<seq<Row>>, wm: nat) {
    forall k :: KeyOk(hist, delta, runs, wm, k)
  }

  lemma {:induction false} HitIsBelow(runs: seq<seq<Row>>, k: Key, w: Option<Row>)
    requires RunsBelow(runs, k, w)
    ensures AtMost(FirstHit(runs, k), w)
    decreases |runs|
  {
    if runs != [] {
      var n := |runs| - 1;
      assert runs[..n] + [runs[n]] == runs;
      assert AtMost(Lookup(runs[n], k), w);
      HitIsBelow(runs[..n], k, w);
    }
  }

  /** Answers are right for every key, if a key whose tombstone won counts as absent; what is found is the
      winner to the last field. */
  lemma AnswersAreRight(hist: seq<Row>, delta: seq<Row>, runs: seq<seq<Row>>, wm: nat, k: Key)
    requires KeyOk(hist, delta, runs, wm, k)
    ensures Live(Answer(delta, runs, k)) == Live(Win(hist, k))
    ensures Answer(delta, runs, k).Some? ==> Answer(delta, runs, k) == Win(hist, k)
  {
    HitIsBelow(runs, k, Win(hist, k));
  }

  // ---------------------------------------------------------------------------------------
  // Appending
  // ---------------------------------------------------------------------------------------

  /** An update may repeat the ord of the row it replaces, as a move of the record or an expiry does. */
  predicate NotOlder(hist: seq<Row>, r: Row) {
    AtMost(Win(hist, r.key), Some(r))
  }

  /** A row is not older than its key's winner, or memory has a row of its key. */
  predicate Takes(hist: seq<Row>, delta: seq<Row>, r: Row) {
    NotOlder(hist, r) || Win(delta, r.key).Some?
  }

  lemma StillBelow(runs: seq<seq<Row>>, k: Key, w: Option<Row>, w': Option<Row>)
    requires RunsBelow(runs, k, w) && AtMost(w, w')
    ensures RunsBelow(runs, k, w')
  {
    forall i | 0 <= i < |runs| ensures AtMost(Lookup(runs[i], k), w') {
      assert AtMost(Lookup(runs[i], k), w);
    }
  }

  lemma OtherKey(hist: seq<Row>, delta: seq<Row>, runs: seq<seq<Row>>, wm: nat, r: Row, k: Key)
    requires KeyOk(hist, delta, runs, wm, k) && r.key != k
    ensures KeyOk(hist + [r], delta + [r], runs, wm, k)
  {
    WinSnoc(hist, r, k);
    WinSnoc(delta, r, k);
  }

  lemma SameKey(hist: seq<Row>, delta: seq<Row>, runs: seq<seq<Row>>, wm: nat, r: Row)
    requires KeyOk(hist, delta, runs, wm, r.key)
    ensures KeyOk(hist + [r], delta + [r], runs, wm, r.key) <==> Takes(hist, delta, r)
    ensures wm <= r.ord ==> Takes(hist, delta, r)
  {
    WinSnoc(hist, r, r.key);
    WinSnoc(delta, r, r.key);
    StillBelow(runs, r.key, Win(hist, r.key), Win(hist + [r], r.key));
  }

  /** A new row keeps every answer right exactly if it is not older than its key's winner or that winner is still in
      memory; otherwise it hides the winner that the runs have. */
  lemma AppendExactly(hist: seq<Row>, delta: seq<Row>, runs: seq<seq<Row>>, wm: nat, r: Row)
    requires AllOk(hist, delta, runs, wm)
    ensures AllOk(hist + [r], delta + [r], runs, wm) <==> Takes(hist, delta, r)
    ensures wm <= r.ord ==> Takes(hist, delta, r)
  {
    assert KeyOk(hist, delta, runs, wm, r.key);
    SameKey(hist, delta, runs, wm, r);
    forall k | k != r.key ensures KeyOk(hist + [r], delta + [r], runs, wm, k) {
      assert KeyOk(hist, delta, runs, wm, k);
      OtherKey(hist, delta, runs, wm, r, k);
    }
  }

  // ---------------------------------------------------------------------------------------
  // Flushing
  // ---------------------------------------------------------------------------------------

  /** Of every key of which a row is held back, the winner is held back. */
  ghost predicate HoldsWinners(rows: seq<Row>, held: seq<bool>)
    requires |held| == |rows|
  {
    forall k :: Win(Select(rows, held, true), k).Some? ==> Win(Select(rows, held, true), k) == Win(rows, k)
  }

  /** The rows that came after the copy was made are not older than those that were copied. */
  ghost predicate Newer(prefix: seq<Row>, suffix: seq<Row>) {
    forall k :: Win(suffix, k).Some? ==> AtMost(Win(prefix, k), Win(suffix, k))
  }

  lemma FirstHitSnoc(runs: seq<seq<Row>>, run: seq<Row>, k: Key)
    ensures FirstHit(runs + [run], k) == if Lookup(run, k).Some? then Lookup(run, k) else FirstHit(runs, k)
  {
    assert (runs + [run])[..|runs|] == runs;
  }

  /** The run is published while its rows are still in memory: nobody sees a difference. */
  lemma CommitOk(hist: seq<Row>, delta: seq<Row>, runs: seq<seq<Row>>, wm: nat, n: nat, held: seq<bool>,
                 run: seq<Row>, wm': nat)
    requires AllOk(hist, delta, runs, wm) && n == |held| <= |delta| && wm <= wm'
    requires Represents(run, Select(delta[..n], held, false))
    ensures AllOk(hist, delta, runs + [run], wm')
  {
    forall k ensures KeyOk(hist, delta, runs + [run], wm', k) {
      assert KeyOk(hist, delta, runs, wm, k);
      SelectSplits(delta[..n], held, k);
      WinConcat(delta[..n], delta[n..], k);
      assert delta[..n] + delta[n..] == delta;
      assert Lookup(run, k) == Win(Select(delta[..n], held, false), k);
      FirstHitSnoc(runs, run, k);
      forall i | 0 <= i < |runs + [run]| ensures AtMost(Lookup((runs + [run])[i], k), Win(hist, k)) {
        if i < |runs| {
          assert AtMost(Lookup(runs[i], k), Win(hist, k));
        }
      }
    }
  }

  /** What a key's winner in memory is after the flushed rows are taken out. */
  lemma TrimmedWin(prefix: seq<Row>, suffix: seq<Row>, held: seq<bool>, k: Key)
    requires |held| == |prefix| && HoldsWinners(prefix, held) && Newer(prefix, suffix)
    ensures var before, after := Win(prefix + suffix, k), Win(Select(prefix, held, true) + suffix, k);
            && (after.Some? ==> after == before)
            && (after == None ==> before == Win(Select(prefix, held, false), k))
  {
    WinConcat(prefix, suffix, k);
    WinConcat(Select(prefix, held, true), suffix, k);
    SelectSplits(prefix, held, k);
  }

  lemma TrimOk(hist: seq<Row>, delta: seq<Row>, runs: seq<seq<Row>>, wm: nat, n: nat, held: seq<bool>)
    requires AllOk(hist, delta, runs, wm) && n == |held| <= |delta|
    requires HoldsWinners(delta[..n], held) && Newer(delta[..n], delta[n..])
    requires runs != [] && Represents(runs[|runs| - 1], Select(delta[..n], held, false))
    requires forall r :: r in Select(delta[..n], held, false) ==> r.ord < wm
    ensures AllOk(hist, Select(delta[..n], held, true) + delta[n..], runs, wm)
  {
    assert delta[..n] + delta[n..] == delta;
    forall k ensures KeyOk(hist, Select(delta[..n], held, true) + delta[n..], runs, wm, k) {
      assert KeyOk(hist, delta, runs, wm, k);
      TrimmedWin(delta[..n], delta[n..], held, k);
      assert Lookup(runs[|runs| - 1], k) == Win(Select(delta[..n], held, false), k);
    }
  }

  /** A flush that holds nothing back cannot go wrong. */
  lemma NothingHeld(rows: seq<Row>, held: seq<bool>)
    requires |held| == |rows| && true !in held
    ensures HoldsWinners(rows, held)
  {
    SelectNone(rows, held);
  }

  lemma {:induction false} SelectNone(rows: seq<Row>, held: seq<bool>)
    requires |held| == |rows| && true !in held
    ensures Select(rows, held, true) == []
    decreases |rows|
  {
    if rows != [] {
      var n := |rows| - 1;
      assert held[n] in held && forall b :: b in held[..n] ==> b in held;
      SelectNone(rows[..n], held[..n]);
    }
  }

  /** A flush is right exactly when of every key of which it holds back a row it holds back the winner: no other
      flush leaves the answers what they were. */
  lemma FlushExactly(delta: seq<Row>, runs: seq<seq<Row>>, held: seq<bool>, run: seq<Row>)
    requires |held| == |delta| && Represents(run, Select(delta, held, false))
    ensures HoldsWinners(delta, held)
       <==> forall k :: Win(delta, k).Some? ==>
              Answer(Select(delta, held, true), runs + [run], k) == Answer(delta, runs, k)
  {
    var kept := Select(delta, held, true);
    forall k ensures (Win(kept, k).Some? ==> Win(kept, k) == Win(delta, k))
                <==> (Win(delta, k).Some? ==> Answer(kept, runs + [run], k) == Answer(delta, runs, k))
    {
      SelectSplits(delta, held, k);
      assert Lookup(run, k) == Win(Select(delta, held, false), k);
      FirstHitSnoc(runs, run, k);
    }
  }

  // ---------------------------------------------------------------------------------------
  // Merging all runs
  // ---------------------------------------------------------------------------------------

  lemma CompactOk(hist: seq<Row>, delta: seq<Row>, runs: seq<seq<Row>>, wm: nat, out: seq<Row>)
    requires AllOk(hist, delta, runs, wm)
    requires forall k :: Lookup(out, k) == Emit(Merged(runs, k), true)
    ensures AllOk(hist, delta, [out], wm)
  {
    forall k ensures KeyOk(hist, delta, [out], wm, k) {
      assert KeyOk(hist, delta, runs, wm, k);
      var w := Win(hist, k);
      MergedBelow(runs, k, w);
      FirstHitSnoc([], out, k);
      assert [] + [out] == [out];
      if w.Some? && Win(delta, k) == None {
        HitIsMerged(runs, k, w);
      }
    }
  }

  lemma {:induction false} MergedBelow(runs: seq<seq<Row>>, k: Key, w: Option<Row>)
    requires RunsBelow(runs, k, w)
    ensures AtMost(Merged(runs, k), w)
    decreases |runs|
  {
    if runs != [] {
      var n := |runs| - 1;
      assert runs[..n] + [runs[n]] == runs;
      MergedBelow(runs[..n], k, w);
      assert AtMost(Lookup(runs[n], k), w);
    }
  }

  /** Searching from the newest run finds the winner of all runs, if it is not below any of them. */
  lemma HitIsMerged(runs: seq<seq<Row>>, k: Key, w: Option<Row>)
    requires RunsBelow(runs, k, w) && (FirstHit(runs, k) == w || FirstHit(runs, k) == None)
    ensures FirstHit(runs, k) == Merged(runs, k)
  {
    if FirstHit(runs, k).Some? {
      forall i | 0 <= i < |runs| && Lookup(runs[i], k).Some?
        ensures Lookup(runs[i], k).value.ord <= w.value.ord
      {
        assert AtMost(Lookup(runs[i], k), w);
      }
    }
    FirstHitIsMerged(runs, k);
  }

  // ---------------------------------------------------------------------------------------
  // Starting over
  // ---------------------------------------------------------------------------------------

  lemma RebuildOk(rows: seq<Row>, runs: seq<seq<Row>>, cover: nat)
    requires forall r :: r in rows ==> r.ord < cover
    requires if rows == [] then runs == [] else |runs| == 1 && Represents(runs[0], rows)
    ensures AllOk(rows, [], runs, cover)
  {
    forall k ensures KeyOk(rows, [], runs, cover, k) {
      if rows != [] {
        FirstHitSnoc([], runs[0], k);
        assert [] + [runs[0]] == runs;
        assert Lookup(runs[0], k) == Win(rows, k);
      }
    }
  }

  // ---------------------------------------------------------------------------------------
  // A flush that answers wrongly afterwards
  // ---------------------------------------------------------------------------------------

  /** A record is put and removed before it is durable. The put is held back, the tombstone has no place in a
      file and never is: after the flush a lookup finds the removed record. */
  lemma HeldPutFlushedTombstone(k: Key, loc: Loc, ord: nat)
    ensures var put, tomb := Row(k, ord, false, Some(loc)), Row(k, ord + 1, true, None);
            var delta, held := [put, tomb], [true, false];
            && !HoldsWinners(delta, held)
            && Live(Win(delta, k)) == None
            && Answer(Select(delta, held, true), [Select(delta, held, false)], k) == Some(put)
  {
    var put, tomb := Row(k, ord, false, Some(loc)), Row(k, ord + 1, true, None);
    SelectSnoc([], [], put, true, true);
    SelectSnoc([put], [true], tomb, false, true);
    assert [] + [put] == [put] && [] + [true] == [true];
    assert [put] + [tomb] == [put, tomb] && [true] + [false] == [true, false];
    WinSnoc([], put, k);
    WinSnoc([put], tomb, k);
    assert [put] + [] == [put];
  }
}
