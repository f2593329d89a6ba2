/**
  What a replay of the log makes of the ordered key index after memory is lost (include/bitcask/oki_state.hpp,
  src/fileops/oki_state.cpp 65-78): rows below the watermark are dropped at the gate of append, so whatever was
  only in memory and lies below it is gone. When nothing is, and which flushes leave it so.
 */
module OkiReplays {
  import opened Bytes
  import opened OkiRows
  import opened OkiMerge
  import opened OkiView
  import opened OkiStates

  /** The rows that a replay of the log puts into memory again. */
  function Replayed(log: seq<Row>, wm: nat): seq<Row>
    decreases |log|
  {
    if log == [] then []
    else
      var n := |log| - 1;
      var before := Replayed(log[..n], wm);
      if log[n].ord >= wm then before + [log[n]] else before
  }

  lemma {:induction false} ReplayedWin(log: seq<Row>, wm: nat, k: Key)
    ensures var w := Win(log, k); Win(Replayed(log, wm), k) == if w.Some? && w.value.ord >= wm then w else None
    decreases |log|
  {
    if log != [] {
      var n := |log| - 1;
      ReplayedWin(log[..n], wm, k);
      WinSnoc(Replayed(log[..n], wm), log[n], k);
    }
  }

  // ---------------------------------------------------------------------------------------
  // Any order of arrival
  // ---------------------------------------------------------------------------------------

  /** No key has two rows of one ord. */
  ghost predicate NoTies(rows: seq<Row>) {
    forall i, j :: 0 <= i < |rows| && 0 <= j < |rows| && rows[i].key == rows[j].key && rows[i].ord == rows[j].ord ==>
      rows[i] == rows[j]
  }

  lemma SameRows(a: seq<Row>, b: seq<Row>, k: Key)
    requires forall r :: r in a ==> r in b
    requires HasKey(a, k)
    ensures HasKey(b, k)
  {
    var i :| 0 <= i < |a| && a[i].key == k;
    assert a[i] in b;
    var j :| 0 <= j < |b| && b[j] == a[i];
  }

  /** A parallel replay may bring the rows in any order and more than once: without ties the winners are the same. */
  lemma AnyOrder(a: seq<Row>, b: seq<Row>, k: Key)
    requires NoTies(a) && forall r :: r in a <==> r in b
    ensures Win(a, k) == Win(b, k)
  {
    var i := WinIs(a, k);
    var j := WinIs(b, k);
    if HasKey(a, k) {
      SameRows(a, b, k);
      assert a[i] in b && b[j] in a;
      var i' :| 0 <= i' < |b| && b[i'] == a[i];
      var j' :| 0 <= j' < |a| && a[j'] == b[j];
      assert Beats(a, i, j') && Beats(b, j, i');
    } else if HasKey(b, k) {
      SameRows(b, a, k);
    }
  }

  // ---------------------------------------------------------------------------------------
  // When a replay restores everything
  // ---------------------------------------------------------------------------------------

  /** The winner in memory lies below the watermark. */
  ghost predicate Low(delta: seq<Row>, wm: nat, k: Key) {
    Win(delta, k).Some? && Win(delta, k).value.ord < wm
  }

  /** A replay would lose the winner of this key. */
  ghost predicate Loses(delta: seq<Row>, runs: seq<seq<Row>>, wm: nat, k: Key) {
    Low(delta, wm, k) && Live(FirstHit(runs, k)) != Live(Win(delta, k))
  }

  /** A lookup after the replay answers what it should. */
  ghost predicate RightAfterReplay(log: seq<Row>, runs: seq<seq<Row>>, wm: nat, k: Key) {
    Live(Answer(Replayed(log, wm), runs, k)) == Live(Win(log, k))
  }

  lemma ReplayedAnswer(log: seq<Row>, delta: seq<Row>, runs: seq<seq<Row>>, wm: nat, k: Key)
    requires KeyOk(log, delta, runs, wm, k)
    ensures RightAfterReplay(log, runs, wm, k) <==> !Loses(delta, runs, wm, k)
  {
    ReplayedWin(log, wm, k);
    HitIsBelow(runs, k, Win(log, k));
  }

  /** Memory is lost and the log replayed: every lookup answers what it did exactly if of no key the winner was in
      memory, below the watermark, and not what the runs show. */
  lemma ReplayRestores(log: seq<Row>, delta: seq<Row>, runs: seq<seq<Row>>, wm: nat)
    requires AllOk(log, delta, runs, wm)
    ensures (forall k :: RightAfterReplay(log, runs, wm, k)) <==> (forall k :: !Loses(delta, runs, wm, k))
  {
    forall k ensures RightAfterReplay(log, runs, wm, k) <==> !Loses(delta, runs, wm, k) {
      assert KeyOk(log, delta, runs, wm, k);
      ReplayedAnswer(log, delta, runs, wm, k);
    }
  }

  /** If no winner in memory lies below the watermark, the whole invariant is restored, and the index can go on. */
  lemma ReplayGoesOn(log: seq<Row>, delta: seq<Row>, runs: seq<seq<Row>>, wm: nat)
    requires AllOk(log, delta, runs, wm)
    requires forall k :: !Low(delta, wm, k)
    ensures AllOk(log, Replayed(log, wm), runs, wm)
  {
    forall k ensures KeyOk(log, Replayed(log, wm), runs, wm, k) {
      assert KeyOk(log, delta, runs, wm, k) && !Low(delta, wm, k);
      ReplayedWin(log, wm, k);
    }
  }

  // ---------------------------------------------------------------------------------------
  // A flush and then a loss of memory
  // ---------------------------------------------------------------------------------------

  /** Every row of the runs lies below the watermark. */
  ghost predicate Covered(runs: seq<seq<Row>>, wm: nat) {
    forall i, k :: 0 <= i < |runs| && Lookup(runs[i], k).Some? ==> Lookup(runs[i], k).value.ord < wm
  }

  lemma {:induction false} HitIsCovered(runs: seq<seq<Row>>, wm: nat, k: Key)
    requires Covered(runs, wm)
    ensures FirstHit(runs, k).Some? ==> FirstHit(runs, k).value.ord < wm
    decreases |runs|
  {
    if runs != [] {
      var n := |runs| - 1;
      assert Lookup(runs[n], k).Some? ==> Lookup(runs[n], k).value.ord < wm;
      assert Covered(runs[..n], wm);
      HitIsCovered(runs[..n], wm, k);
    }
  }

  lemma {:induction false} SelectedAs(rows: seq<Row>, durable: seq<Watermark>, b: bool)
    ensures forall r :: r in Select(rows, HeldFlags(rows, durable), b) ==> r in rows && Held(r, durable) == b
    decreases |rows|
  {
    if rows != [] {
      var n := |rows| - 1;
      assert HeldFlags(rows, durable)[..n] == HeldFlags(rows[..n], durable);
      SelectedAs(rows[..n], durable, b);
    }
  }

  /** What a flush with these watermarks does: the rows that are not held form a run, and the watermark is lifted
      above every one of them. */
  ghost predicate Flushes(delta: seq<Row>, durable: seq<Watermark>, wm: nat, run: seq<Row>, wm': nat) {
    var flushed := Select(delta, HeldFlags(delta, durable), false);
    && Represents(run, flushed) && wm <= wm' && forall r :: r in flushed ==> r.ord < wm'
  }

  /** What memory holds after that. */
  ghost function Kept(delta: seq<Row>, durable: seq<Watermark>): seq<Row> {
    Select(delta, HeldFlags(delta, durable), true)
  }

  /** The winner of a key is held back and lies below the watermark. */
  ghost predicate HeldLow(delta: seq<Row>, durable: seq<Watermark>, wm: nat, k: Key) {
    Low(delta, wm, k) && Held(Win(delta, k).value, durable)
  }

  /** Once the run is written, only a held winner can be lost: others are in the run, and held ones, which are puts, in
      no run at all. */
  lemma OnlyHeldAreLost(delta: seq<Row>, runs: seq<seq<Row>>, wm: nat, durable: seq<Watermark>, run: seq<Row>, wm': nat,
                        k: Key)
    requires Covered(runs, wm) && !HeldLow(delta, durable, wm, k)
    requires forall r :: r in delta && r.tomb ==> r.loc == None
    requires Flushes(delta, durable, wm, run, wm')
    ensures Loses(delta, runs + [run], wm', k) <==> HeldLow(delta, durable, wm', k)
  {
    SelectSplits(delta, HeldFlags(delta, durable), k);
    SelectedAs(delta, durable, true);
    SelectedAs(delta, durable, false);
    HitIsCovered(runs, wm, k);
    FirstHitSnoc(runs, run, k);
    assert Lookup(run, k) == Win(Select(delta, HeldFlags(delta, durable), false), k);
  }

  /** A flush and then a loss of memory: the replay restores every answer exactly if no winner that was held back lies
      below the watermark that the flush has set. Flushed tombstones, which may be newer than what is held, lift it
      too. */
  lemma FlushThenReplay(log: seq<Row>, delta: seq<Row>, runs: seq<seq<Row>>, wm: nat, durable: seq<Watermark>,
                        run: seq<Row>, wm': nat)
    requires AllOk(log, delta, runs, wm) && Covered(runs, wm)
    requires (forall r :: r in delta && r.tomb ==> r.loc == None) && forall k :: !HeldLow(delta, durable, wm, k)
    requires Flushes(delta, durable, wm, run, wm')
    ensures (forall k :: RightAfterReplay(log, runs + [run], wm', k))
       <==> (forall k :: !HeldLow(delta, durable, wm', k))
  {
    assert delta[..|delta|] == delta;
    CommitOk(log, delta, runs, wm, |delta|, HeldFlags(delta, durable), run, wm');
    ReplayRestores(log, delta, runs + [run], wm');
    forall k ensures Loses(delta, runs + [run], wm', k) <==> HeldLow(delta, durable, wm', k) {
      OnlyHeldAreLost(delta, runs, wm, durable, run, wm', k);
    }
  }

  /** A flush leaves the runs below the new watermark. */
  lemma FlushCovers(delta: seq<Row>, runs: seq<seq<Row>>, wm: nat, durable: seq<Watermark>, run: seq<Row>, wm': nat)
    requires Covered(runs, wm) && Flushes(delta, durable, wm, run, wm')
    ensures Covered(runs + [run], wm')
  {
    var all := runs + [run];
    forall i, k | 0 <= i < |all| && Lookup(all[i], k).Some? ensures Lookup(all[i], k).value.ord < wm' {
      if i < |runs| {
        assert all[i] == runs[i];
      } else {
        assert Lookup(run, k) == Win(Select(delta, HeldFlags(delta, durable), false), k);
      }
    }
  }

  lemma {:induction false} MergedIsCovered(runs: seq<seq<Row>>, wm: nat, k: Key)
    requires Covered(runs, wm)
    ensures Merged(runs, k).Some? ==> Merged(runs, k).value.ord < wm
    decreases |runs|
  {
    if runs != [] {
      var n := |runs| - 1;
      assert Lookup(runs[n], k).Some? ==> Lookup(runs[n], k).value.ord < wm;
      assert Covered(runs[..n], wm);
      MergedIsCovered(runs[..n], wm, k);
    }
  }

  /** So does a merge. */
  lemma CompactCovers(runs: seq<seq<Row>>, wm: nat, out: seq<Row>)
    requires Covered(runs, wm) && forall k :: Lookup(out, k) == Emit(Merged(runs, k), true)
    ensures Covered([out], wm)
  {
    forall i, k | 0 <= i < 1 && Lookup([out][i], k).Some? ensures Lookup([out][i], k).value.ord < wm {
      MergedIsCovered(runs, wm, k);
    }
  }

  /** Two keys: a put behind the durable part of its file, and then the removal of another key. The flush answers
      rightly and lifts the watermark above both; after a loss of memory the put is dropped at the gate, although its
      record is in the log. */
  lemma HeldPutIsLost(k: Key, other: Key, loc: Loc, ord: nat, d: Watermark, wm: nat)
    requires k != other && d.fileId == loc.fileId && d.durable as int < loc.offset + loc.totalSz && wm <= ord
    ensures var put, tomb := Row(k, ord, false, Some(loc)), Row(other, ord + 1, true, None);
            var log := [put, tomb];
            && HoldsWinners(log, HeldFlags(log, [d])) && Kept(log, [d]) == [put]
            && Flushes(log, [d], wm, [tomb], ord + 2)
            && Answer(Kept(log, [d]), [[tomb]], k) == Some(put) == Win(log, k)
            && Answer(Replayed(log, ord + 2), [[tomb]], k) == None
  {
    var put, tomb := Row(k, ord, false, Some(loc)), Row(other, ord + 1, true, None);
    var log := [put, tomb];
    assert HeldFlags(log, [d]) == [true, false];
    FlushOfTwo(put, tomb, log, [d], wm);
    OneRow(put);
    OneRow(tomb);
    OneRun([tomb], k);
    ReplayedWin(log, ord + 2, k);
    TwoRows(put, tomb);
  }

  lemma FlushOfTwo(put: Row, tomb: Row, log: seq<Row>, durable: seq<Watermark>, wm: nat)
    requires log == [put, tomb] && put.key != tomb.key && HeldFlags(log, durable) == [true, false]
    requires wm <= put.ord < tomb.ord
    ensures HoldsWinners(log, HeldFlags(log, durable)) && Kept(log, durable) == [put]
    ensures Flushes(log, durable, wm, [tomb], tomb.ord + 1)
  {
    Halves(put, tomb);
    OneRow(tomb);
    FirstHeld(put, tomb);
  }

  lemma FirstHeld(a: Row, b: Row)
    requires a.key != b.key
    ensures HoldsWinners([a, b], [true, false])
  {
    Halves(a, b);
    OneRow(a);
    TwoRows(a, b);
  }

  lemma OneSelected(a: Row, f: bool, b: bool)
    ensures Select([a], [f], b) == if f == b then [a] else []
  {
    SelectSnoc([], [], a, f, b);
    assert [] + [a] == [a] && [] + [f] == [f];
  }

  lemma Halves(a: Row, b: Row)
    ensures Select([a, b], [true, false], true) == [a] && Select([a, b], [true, false], false) == [b]
  {
    OneSelected(a, true, true);
    OneSelected(a, true, false);
    SelectSnoc([a], [true], b, false, true);
    SelectSnoc([a], [true], b, false, false);
    assert [a] + [b] == [a, b] && [true] + [false] == [true, false] && [] + [b] == [b];
  }

  lemma OneRow(r: Row)
    ensures forall k :: Win([r], k) == Candidate(r, k) && Lookup([r], k) == Candidate(r, k)
  {
    forall k ensures Win([r], k) == Candidate(r, k) && Lookup([r], k) == Candidate(r, k) {
      assert [r] == [] + [r];
      WinSnoc([], r, k);
      LookupSnoc([], r, k);
    }
  }

  lemma OneRun(run: seq<Row>, k: Key)
    ensures FirstHit([run], k) == Lookup(run, k)
  {
    FirstHitSnoc([], run, k);
    assert [] + [run] == [run];
  }

  lemma TwoRows(a: Row, b: Row)
    requires a.key != b.key
    ensures forall k :: Win([a, b], k) == if k == a.key then Some(a) else if k == b.key then Some(b) else None
  {
    OneRow(a);
    forall k ensures Win([a, b], k) == if k == a.key then Some(a) else if k == b.key then Some(b) else None {
      assert [a] + [b] == [a, b];
      WinSnoc([a], b, k);
    }
  }
}
