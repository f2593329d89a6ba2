/**
  OkiState (include/bitcask/oki_state.hpp, src/fileops/oki_state.cpp). A flush is cut where it gives up its
  locks, into copying, publishing and trimming, so that rows may arrive and lookups happen in between.
 */
module OkiStates {
  import opened Bytes
  import opened OkiRows
  import opened OkiMerge
  import opened OkiView
  import opened OkiBuilder

  /** How many bytes of a file are known to be on disk. */
  datatype Watermark = Watermark(fileId: uint32, durable: uint64)

  /** A flush under way: what it has copied, or what it has published and not yet taken out of memory. */
  datatype Flight =
    | Idle
    | Copied(held: seq<bool>, run: seq<Row>, cover: nat)
    | Published(held: seq<bool>)

  datatype LocateResult = Unavailable | Miss | Hit(row: Row)

  /** What a lookup finds of a run: whether it is of a version with places and a filter, what the filter says of the
      key, and whether the block can be read. */
  datatype Access = Access(located: bool, maybe: bool, readable: bool)

  /** Such a run cannot be searched. */
  predicate Stops(a: Access) {
    !a.located || (a.maybe && !a.readable)
  }

  /** A filter may say yes to any key, but no only to a key that is not in its run. */
  predicate FiltersOk(runs: seq<seq<Row>>, k: Key, access: seq<Access>) {
    && |access| == |runs|
    && forall i :: 0 <= i < |runs| && access[i].located && Lookup(runs[i], k).Some? ==> access[i].maybe
  }

  /** Such a run stands before all runs that have the key. */
  ghost predicate Blocked(runs: seq<seq<Row>>, k: Key, access: seq<Access>)
    requires |access| == |runs|
  {
    exists i :: 0 <= i < |runs| && Stops(access[i]) && forall j :: i < j < |runs| ==> Lookup(runs[j], k) == None
  }

  const COMPACT_RUN_LIMIT: nat := 8
  const DEFAULT_SPILL_BYTES: nat := 0x400_0000

  /** A row that refers to bytes that might be lost is held back. Files without a watermark are all on disk. */
  function Held(r: Row, durable: seq<Watermark>): bool {
    r.loc.Some? && Beyond(r.loc.value, durable)
  }

  function Beyond(loc: Loc, durable: seq<Watermark>): bool {
    if durable == [] then false
    else if durable[0].fileId == loc.fileId then loc.offset + loc.totalSz > durable[0].durable
    else Beyond(loc, durable[1..])
  }

  /** The first mark that there is of a file. */
  predicate FirstMark(durable: seq<Watermark>, fileId: uint32, i: nat) {
    i < |durable| && durable[i].fileId == fileId && forall j :: 0 <= j < i ==> durable[j].fileId != fileId
  }

  /** The row refers to nothing, or to bytes up to the first mark of its file, if there is one. */
  ghost predicate OnDisk(r: Row, durable: seq<Watermark>) {
    r.loc.Some? ==> forall i: nat :: FirstMark(durable, r.loc.value.fileId, i) ==>
      r.loc.value.offset + r.loc.value.totalSz <= durable[i].durable
  }

  lemma {:induction false} BeyondFirstMark(loc: Loc, durable: seq<Watermark>)
    ensures Beyond(loc, durable)
       <==> exists i: nat :: FirstMark(durable, loc.fileId, i) && loc.offset + loc.totalSz > durable[i].durable
    decreases |durable|
  {
    if durable != [] {
      var rest := durable[1..];
      if durable[0].fileId == loc.fileId {
        assert FirstMark(durable, loc.fileId, 0);
      } else {
        BeyondFirstMark(loc, rest);
        forall i: nat ensures FirstMark(rest, loc.fileId, i) <==> FirstMark(durable, loc.fileId, i + 1) {
          MarkMoves(durable, loc.fileId, i);
        }
        if i: nat :| FirstMark(durable, loc.fileId, i) && loc.offset + loc.totalSz > durable[i].durable {
          assert FirstMark(rest, loc.fileId, i - 1);
        }
        if i: nat :| FirstMark(rest, loc.fileId, i) && loc.offset + loc.totalSz > rest[i].durable {
          assert FirstMark(durable, loc.fileId, i + 1);
        }
      }
    }
  }

  lemma MarkMoves(durable: seq<Watermark>, fileId: uint32, i: nat)
    requires durable != [] && durable[0].fileId != fileId
    ensures FirstMark(durable[1..], fileId, i) <==> FirstMark(durable, fileId, i + 1)
  {
    if FirstMark(durable[1..], fileId, i) {
      forall j | 0 <= j < i + 1 ensures durable[j].fileId != fileId {
        assert j > 0 ==> durable[1..][j - 1] == durable[j];
      }
    }
    if FirstMark(durable, fileId, i + 1) {
      forall j | 0 <= j < i ensures durable[1..][j].fileId != fileId {
        assert durable[1..][j] == durable[j + 1];
      }
    }
  }

  lemma HeldExactly(r: Row, durable: seq<Watermark>)
    ensures Held(r, durable) <==> !OnDisk(r, durable)
  {
    if r.loc.Some? {
      BeyondFirstMark(r.loc.value, durable);
    }
  }

  /** Of a number of rows those are flushed that are on disk. */
  lemma {:induction false} FlushedExactly(rows: seq<Row>, held: seq<bool>, durable: seq<Watermark>)
    requires |held| == |rows| && forall i :: 0 <= i < |rows| ==> (held[i] <==> !OnDisk(rows[i], durable))
    ensures forall r :: r in Select(rows, held, false) <==> r in rows && OnDisk(r, durable)
    decreases |rows|
  {
    if rows != [] {
      var n := |rows| - 1;
      FlushedExactly(rows[..n], held[..n], durable);
      assert rows == rows[..n] + [rows[n]];
    }
  }

  /** Nothing stays in memory exactly if every row is on disk. */
  lemma {:induction false} AllFlushed(rows: seq<Row>, held: seq<bool>, durable: seq<Watermark>)
    requires |held| == |rows| && forall i :: 0 <= i < |rows| ==> (held[i] <==> !OnDisk(rows[i], durable))
    ensures Select(rows, held, true) == [] <==> forall i :: 0 <= i < |rows| ==> OnDisk(rows[i], durable)
    decreases |rows|
  {
    if rows != [] {
      var n := |rows| - 1;
      AllFlushed(rows[..n], held[..n], durable);
      assert forall i :: 0 <= i < n ==> rows[..n][i] == rows[i];
    }
  }

  function HeldFlags(rows: seq<Row>, durable: seq<Watermark>): (flags: seq<bool>)
    ensures |flags| == |rows|
  {
    seq(|rows|, i requires 0 <= i < |rows| => Held(rows[i], durable))
  }

  lemma PickStep(rows: seq<Row>, held: seq<bool>, flushed: seq<Row>, r: Row, durable: seq<Watermark>)
    requires held == HeldFlags(rows, durable) && flushed == Select(rows, held, false)
    ensures held + [Held(r, durable)] == HeldFlags(rows + [r], durable)
    ensures Select(rows + [r], held + [Held(r, durable)], false) == if Held(r, durable) then flushed else flushed + [r]
  {
    SelectSnoc(rows, held, r, Held(r, durable), false);
  }

  /** Flushing with these watermarks leaves every answer what it was exactly if no key has a held row and a winner that
      is not held. */
  lemma FlushIsRightExactly(delta: seq<Row>, runs: seq<seq<Row>>, durable: seq<Watermark>, run: seq<Row>)
    requires Represents(run, Select(delta, HeldFlags(delta, durable), false))
    ensures HoldsWinners(delta, HeldFlags(delta, durable))
       <==> forall k :: Win(delta, k).Some? ==>
              Answer(Select(delta, HeldFlags(delta, durable), true), runs + [run], k) == Answer(delta, runs, k)
  {
    FlushExactly(delta, runs, HeldFlags(delta, durable), run);
  }

  /** A record is put behind the durable part of its file and then removed; a flush comes. The tombstone has no place in
      a file and is never held, the put is: a lookup finds the removed record. */
  lemma RemovedRecordIsFound(k: Key, loc: Loc, ord: nat, d: Watermark)
    requires d.fileId == loc.fileId && d.durable as int < loc.offset + loc.totalSz
    ensures var put, tomb := Row(k, ord, false, Some(loc)), Row(k, ord + 1, true, None);
            var delta := [put, tomb];
            var held := HeldFlags(delta, [d]);
            && !HoldsWinners(delta, held) && Live(Win(delta, k)) == None
            && Answer(Select(delta, held, true), [Select(delta, held, false)], k) == Some(put)
  {
    var put, tomb := Row(k, ord, false, Some(loc)), Row(k, ord + 1, true, None);
    assert HeldFlags([put, tomb], [d]) == [true, false];
    HeldPutFlushedTombstone(k, loc, ord);
  }

  /** The index finds the winner of every key in memory. */
  ghost predicate IndexOf(delta: seq<Row>, index: map<Key, nat>) {
    forall k :: (k in index <==> Win(delta, k).Some?)
                && (k in index ==> index[k] < |delta| && Win(delta, k) == Some(delta[index[k]]))
  }

  lemma IndexSnoc(delta: seq<Row>, index: map<Key, nat>, r: Row, index': map<Key, nat>)
    requires IndexOf(delta, index)
    requires index' == if r.key !in index || delta[index[r.key]].ord <= r.ord then index[r.key := |delta|] else index
    ensures IndexOf(delta + [r], index')
  {
    forall k ensures (k in index' <==> Win(delta + [r], k).Some?)
                     && (k in index' ==>
                         index'[k] < |delta| + 1 && Win(delta + [r], k) == Some((delta + [r])[index'[k]]))
    {
      WinSnoc(delta, r, k);
    }
  }

  ghost predicate FlightOk(delta: seq<Row>, runs: seq<seq<Row>>, wm: nat, flight: Flight) {
    flight.Idle? || (
      var n := |flight.held|;
      && n <= |delta|
      && HoldsWinners(delta[..n], flight.held) && Newer(delta[..n], delta[n..])
      && var flushed := Select(delta[..n], flight.held, false);
      && (flight.Copied? ==> Represents(flight.run, flushed) && forall r :: r in flushed ==> r.ord < flight.cover)
      && (flight.Published? ==>
           runs != [] && Represents(runs[|runs| - 1], flushed) && forall r :: r in flushed ==> r.ord < wm))
  }

  /** Rows that arrive during a flush come after what it copied. */
  lemma AppendInFlight(hist: seq<Row>, delta: seq<Row>, runs: seq<seq<Row>>, wm: nat, flight: Flight, r: Row)
    requires FlightOk(delta, runs, wm, flight) && AllOk(hist, delta, runs, wm)
    requires flight.Idle? || NotOlder(hist, r)
    ensures FlightOk(delta + [r], runs, wm, flight)
  {
    if !flight.Idle? {
      var n := |flight.held|;
      var prefix, suffix := delta[..n], delta[n..];
      assert (delta + [r])[..n] == prefix && (delta + [r])[n..] == suffix + [r];
      assert delta == prefix + suffix;
      forall k | Win(suffix + [r], k).Some? ensures AtMost(Win(prefix, k), Win(suffix + [r], k)) {
        WinSnoc(suffix, r, k);
        WinConcat(prefix, suffix, k);
        assert KeyOk(hist, delta, runs, wm, k);
      }
    }
  }

  lemma PushOk(hist: seq<Row>, delta: seq<Row>, runs: seq<seq<Row>>, wm: nat, flight: Flight, r: Row)
    requires FlightOk(delta, runs, wm, flight) && AllOk(hist, delta, runs, wm)
    ensures AllOk(hist + [r], delta + [r], runs, wm) <==> Takes(hist, delta, r)
    ensures wm <= r.ord ==> Takes(hist, delta, r)
    ensures flight.Idle? || NotOlder(hist, r) ==> FlightOk(delta + [r], runs, wm, flight)
  {
    AppendExactly(hist, delta, runs, wm, r);
    if flight.Idle? || NotOlder(hist, r) {
      AppendInFlight(hist, delta, runs, wm, flight, r);
    }
  }

  ghost predicate Ascending(s: seq<nat>) {
    forall i, j :: 0 <= i < j < |s| ==> s[i] < s[j]
  }

  class OkiState {
    var delta: seq<Row>
    var deltaIdx: map<Key, nat>
    var pointQuery: bool
    var runs: seq<seq<Row>>
    var gens: seq<nat>                // the gen of every run
    var wm: nat
    var loaded: bool
    var flight: Flight
    ghost var hist: seq<Row>          // every row that was accepted, in order of arrival

    /** Everything is as it should be, and a flush under way can be finished. */
    ghost predicate Valid()
      reads this
    {
      Right() && FlightOk(delta, runs, wm, flight)
    }

    /** Every lookup is right. */
    ghost predicate Right()
      reads this
    {
      && AllOk(hist, delta, runs, wm)
      && AllRuns(runs) && |gens| == |runs| && Ascending(gens)
      && (pointQuery ==> IndexOf(delta, deltaIdx))
    }

    constructor ()
      ensures Valid() && hist == [] && delta == [] && runs == [] && wm == 0 && !loaded && !pointQuery && flight.Idle?
    {
      delta, deltaIdx, pointQuery, runs, gens, wm, loaded, flight, hist := [], map[], false, [], [], 0, false, Idle, [];
    }

    /** A new row. What lies below the watermark is in the runs already and is dropped. A flush under way can be
        finished if the row is not older than its key's winner, which outside of recovery it never is. */
    method Append(r: Row)
      requires Valid()
      modifies this`delta, this`deltaIdx, this`hist
      ensures Right() && (flight.Idle? || r.ord < wm || NotOlder(old(hist), r) ==> Valid())
      ensures hist == if r.ord < wm then old(hist) else old(hist) + [r]
      ensures delta == if r.ord < wm then old(delta) else old(delta) + [r]
    {
      if r.ord < wm {
        return;
      }
      Push(r);
    }

    /** A row with an old ord and new information: the record has moved, or has expired. It is always taken. Lookups
        stay right exactly if it is not older than its key's winner, or the winner is still in memory. */
    method AppendUpdate(r: Row)
      requires Valid()
      modifies this`delta, this`deltaIdx, this`hist
      ensures hist == old(hist) + [r] && delta == old(delta) + [r]
      ensures Right() <==> Takes(old(hist), old(delta), r)
      ensures NotOlder(old(hist), r) ==> Valid()
    {
      Push(r);
    }

    method Push(r: Row)
      requires Valid()
      modifies this`delta, this`deltaIdx, this`hist
      ensures hist == old(hist) + [r] && delta == old(delta) + [r]
      ensures Right() <==> Takes(old(hist), old(delta), r)
      ensures wm <= r.ord ==> Takes(old(hist), old(delta), r)
      ensures Right() && (flight.Idle? || NotOlder(old(hist), r)) ==> Valid()
    {
      PushOk(hist, delta, runs, wm, flight, r);
      ghost var before := delta;
      delta, hist := delta + [r], hist + [r];
      assert delta[..|delta| - 1] == before && delta[..|delta|] == delta;
      IndexRow(|delta| - 1, before);
    }

    method IndexRow(idx: nat, ghost before: seq<Row>)
      requires idx < |delta| && before == delta[..idx] && (pointQuery ==> IndexOf(before, deltaIdx))
      modifies this`deltaIdx
      ensures pointQuery ==> IndexOf(delta[..idx + 1], deltaIdx)
    {
      if !pointQuery {
        return;
      }
      var r := delta[idx];
      ghost var index := deltaIdx;
      if r.key !in deltaIdx {
        deltaIdx := deltaIdx[r.key := idx];
      } else if delta[deltaIdx[r.key]].ord <= r.ord {
        deltaIdx := deltaIdx[r.key := idx];
      }
      IndexSnoc(before, index, r, deltaIdx);
      assert before + [r] == delta[..idx + 1];
    }

    method RebuildIndex()
      modifies this`deltaIdx
      ensures pointQuery ==> IndexOf(delta, deltaIdx)
    {
      deltaIdx := map[];
      if !pointQuery {
        return;
      }
      for i := 0 to |delta|
        invariant IndexOf(delta[..i], deltaIdx)
      {
        IndexRow(i, delta[..i]);
      }
      assert delta[..|delta|] == delta;
    }

    method EnablePointQuery()
      requires Valid()
      modifies this`pointQuery, this`deltaIdx
      ensures Valid() && pointQuery
    {
      if pointQuery {
        return;
      }
      pointQuery := true;
      RebuildIndex();
    }

    /** At any time a hit is the winner of all accepted rows to the last field, and a miss means that the winner
        is a tombstone or that there is none. The lookup is unavailable exactly if it is not switched on, or a run
        that cannot be searched stands before the newest one that has the key. */
    method Locate(k: Key, access: seq<Access>) returns (r: LocateResult)
      requires Right() && FiltersOk(runs, k, access)
      ensures r == Unavailable <==> !(pointQuery && loaded) || (Win(delta, k) == None && Blocked(runs, k, access))
      ensures r.Hit? ==> Win(hist, k) == Some(r.row)
      ensures r == Miss ==> Live(Win(hist, k)) == None
    {
      if !pointQuery || !loaded {
        return Unavailable;
      }
      assert KeyOk(hist, delta, runs, wm, k);
      AnswersAreRight(hist, delta, runs, wm, k);
      if k in deltaIdx {
        return Hit(delta[deltaIdx[k]]);
      }
      r := SearchRuns(k, access);
    }

    /** The newest run that has the key, unless one that cannot be searched comes first. */
    method SearchRuns(k: Key, access: seq<Access>) returns (r: LocateResult)
      requires FiltersOk(runs, k, access)
      ensures r == Unavailable <==> Blocked(runs, k, access)
      ensures r != Unavailable ==> r == if FirstHit(runs, k).Some? then Hit(FirstHit(runs, k).value) else Miss
    {
      assert runs[..|runs|] == runs;
      for i := |runs| downto 0
        invariant FirstHit(runs[..i], k) == FirstHit(runs, k)
        invariant forall j :: i <= j < |runs| ==> Lookup(runs[j], k) == None && !Stops(access[j])
      {
        assert runs[..i + 1][..i] == runs[..i];
        if !access[i].located {
          return Unavailable;
        }
        if !access[i].maybe {
          continue;
        }
        if !access[i].readable {
          return Unavailable;
        }
        var e := Lookup(runs[i], k);
        if e.Some? {
          return Hit(e.value);
        }
      }
      return Miss;
    }

    function NextGen(): (g: nat)
      reads this`gens
      ensures forall i :: 0 <= i < |gens| ==> gens[i] < g
    {
      MaxOf(gens) + 1
    }

    /** Sort out what may be flushed. */
    method PickRows(durable: seq<Watermark>) returns (held: seq<bool>, rows: seq<Row>)
      ensures held == HeldFlags(delta, durable) && rows == Select(delta, held, false)
    {
      held, rows := [], [];
      for i := 0 to |delta|
        invariant held == HeldFlags(delta[..i], durable)
        invariant rows == Select(delta[..i], held, false)
      {
        var hold := Held(delta[i], durable);
        PickStep(delta[..i], held, rows, delta[i], durable);
        assert delta[..i] + [delta[i]] == delta[..i + 1];
        held := held + [hold];
        if !hold {
          rows := rows + [delta[i]];
        }
      }
      assert delta[..|delta|] == delta;
    }

    /** One more than the greatest ord. */
    method CoverOf(rows: seq<Row>) returns (cover: nat)
      ensures forall r :: r in rows ==> r.ord < cover
      ensures cover == 0 <==> rows == []
      ensures cover > 0 ==> exists r :: r in rows && r.ord + 1 == cover
    {
      cover := 0;
      for i := 0 to |rows|
        invariant forall j :: 0 <= j < i ==> rows[j].ord < cover
        invariant cover == 0 <==> i == 0
        invariant cover > 0 ==> exists r :: r in rows && r.ord + 1 == cover
      {
        cover := Max(cover, rows[i].ord + 1);
      }
    }

    /** The first part of a flush: copy, sort, keep the winner of every key. Memory keeps all rows. Unless a key has
        a held row and a flushed winner, nothing can go wrong from here on. */
    method FlushCopy(durable: seq<Watermark>) returns (ok: bool)
      requires Valid() && flight.Idle?
      modifies this`flight
      ensures HoldsWinners(delta, HeldFlags(delta, durable)) ==> Valid()
      ensures ok == loaded && !flight.Published? && (flight.Idle? ==> Valid())
      ensures flight.Copied? <==> loaded && exists i :: 0 <= i < |delta| && OnDisk(delta[i], durable)
      ensures flight.Copied? ==>
                && |flight.held| == |delta|
                && (forall i :: 0 <= i < |delta| ==> (flight.held[i] <==> !OnDisk(delta[i], durable)))
                && forall r :: r in Select(delta, flight.held, false) <==> r in delta && OnDisk(r, durable)
      ensures flight.Copied? ==>
                && flight.held == HeldFlags(delta, durable) && Represents(flight.run, Select(delta, flight.held, false))
                && (forall r :: r in Select(delta, flight.held, false) ==> r.ord < flight.cover)
                && exists r :: r in Select(delta, flight.held, false) && r.ord + 1 == flight.cover
    {
      if !loaded {
        return false;
      }
      var held, rows := PickRows(durable);
      SomeFlushed(delta, held);
      forall i | 0 <= i < |delta| ensures held[i] <==> !OnDisk(delta[i], durable) {
        HeldExactly(delta[i], durable);
      }
      FlushedExactly(delta, held, durable);
      if rows == [] {
        return true;
      }
      var cover := CoverOf(rows);
      var run := SortDedup(rows);
      assert delta[..|held|] == delta && delta[|held|..] == [];
      flight := Copied(held, run, cover);
      return true;
    }

    /** The second part: the run is written, and the manifest makes it count. If anything fails, nothing has
        happened. */
    method FlushPublish(written: bool) returns (ok: bool)
      requires Valid() && flight.Copied?
      modifies this`flight, this`runs, this`gens, this`wm
      ensures Valid() && ok == written
      ensures if ok then flight.Published? && runs == old(runs) + [old(flight).run]
                         && wm == Max(old(wm), old(flight).cover)
              else flight.Idle? && runs == old(runs) && wm == old(wm)
    {
      if !written {
        flight := Idle;
        return false;
      }
      var wm' := Max(wm, flight.cover);
      CommitOk(hist, delta, runs, wm, |flight.held|, flight.held, flight.run, wm');
      ghost var flushed := Select(delta[..|flight.held|], flight.held, false);
      gens := gens + [NextGen()];
      runs, wm := runs + [flight.run], wm';
      flight := Published(flight.held);
      return true;
    }

    /** The last part: what is in the run leaves memory, what was held back and what came since stays. */
    method FlushTrim()
      requires Valid() && flight.Published?
      modifies this`flight, this`delta, this`deltaIdx
      ensures Valid() && flight.Idle?
      ensures delta == var n := |old(flight).held|; Select(old(delta)[..n], old(flight).held, true) + old(delta)[n..]
      ensures true !in old(flight).held ==> delta == old(delta)[|old(flight).held|..]
    {
      TrimOk(hist, delta, runs, wm, |flight.held|, flight.held);
      if true !in flight.held {
        SelectNone(delta[..|flight.held|], flight.held);
      }
      var kept := KeepHeld(delta, flight.held);
      delta, flight := kept, Idle;
      RebuildIndex();
    }

    /** All runs become one without tombstones. The watermark stays. */
    method CompactAll(written: bool) returns (ok: bool)
      requires Valid() && flight.Idle?
      modifies this`runs, this`gens
      ensures Valid() && ok == (written || |old(runs)| < 2)
      ensures if written && |old(runs)| >= 2
              then |runs| == 1 && forall k :: Lookup(runs[0], k) == Live(Merged(old(runs), k))
              else runs == old(runs)
    {
      if |runs| < 2 {
        return true;
      }
      var out := MergeByGen(runs);
      if !written {
        return false;
      }
      CompactOk(hist, delta, runs, wm, out);
      runs, gens := [out], [NextGen()];
      return true;
    }

    /** What a flush does last. */
    method CompactIfMany(written: bool)
      requires Valid() && flight.Idle?
      modifies this`runs, this`gens
      ensures Valid() && (written ==> |runs| <= COMPACT_RUN_LIMIT)
    {
      if |runs| > COMPACT_RUN_LIMIT {
        var _ := CompactAll(written);
      }
    }

    /** Start again from rows that the caller collected. Nothing has happened unless the run and the manifest were
        written. */
    method Rebuild(rows: seq<Row>, cover: nat, rowSize: nat, runWritten: bool, manifestWritten: bool) returns (ok: bool)
      requires Valid() && flight.Idle? && forall r :: r in rows ==> r.ord < cover
      modifies this
      ensures ok == (manifestWritten && (runWritten || rows == []))
      ensures !ok ==> unchanged(this)
      ensures ok ==> Valid() && hist == rows && delta == [] && wm == cover && loaded && |runs| <= 1
      ensures ok ==> (rows == [] <==> runs == []) && pointQuery == old(pointQuery) && flight.Idle?
    {
      var gen := NextGen();
      var made := [];
      if |rows| != 0 {
        if !runWritten {
          return false;
        }
        var run := BuildRun(rows, rowSize);
        made := [run];
      }
      if !manifestWritten {
        return false;
      }
      RebuildOk(rows, made, cover);
      runs, gens := made, if made == [] then [] else [gen];
      wm, loaded, hist, delta := cover, true, rows, [];
      RebuildIndex();
      return true;
    }
  }

  method BuildRun(rows: seq<Row>, rowSize: nat) returns (run: seq<Row>)
    ensures Represents(run, rows)
  {
    var b := new SpillingRunBuilder(false, DEFAULT_SPILL_BYTES, rowSize);
    for i := 0 to |rows|
      invariant fresh(b) && b.Valid() && !b.finished && !b.dropTombstones && b.Added() == rows[..i]
    {
      var _ := b.Add(rows[i]);
    }
    assert rows[..|rows|] == rows;
    var built := b.Finish();
    return built.value;
  }

  /** The held rows of the prefix, and all that came after it. */
  method KeepHeld(rows: seq<Row>, held: seq<bool>) returns (kept: seq<Row>)
    requires |held| <= |rows|
    ensures kept == Select(rows[..|held|], held, true) + rows[|held|..]
  {
    var n := |held|;
    kept := [];
    for i := 0 to n
      invariant kept == Select(rows[..i], held[..i], true)
    {
      SelectSnoc(rows[..i], held[..i], rows[i], held[i], true);
      assert rows[..i] + [rows[i]] == rows[..i + 1] && held[..i] + [held[i]] == held[..i + 1];
      if held[i] {
        kept := kept + [rows[i]];
      }
    }
    assert held[..n] == held;
    for j := n to |rows|
      invariant kept == Select(rows[..n], held, true) + rows[n..j]
    {
      kept := kept + [rows[j]];
    }
    assert rows[n..|rows|] == rows[n..];
  }

  function Max(a: nat, b: nat): nat {
    if a < b then b else a
  }

  function MaxOf(s: seq<nat>): (m: nat)
    ensures forall i :: 0 <= i < |s| ==> s[i] <= m
  {
    if s == [] then 0 else Max(MaxOf(s[..|s| - 1]), s[|s| - 1])
  }

  /** Something is flushed exactly if some row is not held. */
  lemma {:induction false} SomeFlushed(rows: seq<Row>, held: seq<bool>)
    requires |held| == |rows|
    ensures Select(rows, held, false) != [] <==> exists i :: 0 <= i < |held| && !held[i]
    decreases |rows|
  {
    if rows != [] {
      var n := |rows| - 1;
      SomeFlushed(rows[..n], held[..n]);
      assert forall i :: 0 <= i < n ==> held[..n][i] == held[i];
    }
  }
}
