/**
  Checkpoints of the document map (src/cask/cask.cpp 2968-3055, src/keydir/docmap_ckpt.cpp, src/cask/cask_recovery.cpp
  790-824): a base file, the one before it, delta files, and the manifest entry that alone makes them count.
  The rows of the store are a log; a watermark is a position in it. A crash may lose what lies behind the
  committed watermark, and other rows may take its place, while files of the lost rows stay on disk.
 */
module CkptProtocol {
  import opened Bytes
  import opened Manifests
  import opened CkptChains

  const DOCMAP: uint16 := 1
  const DOCMAP_DELTA: uint16 := 19

  datatype World<+E> = World(
    base: Option<Checkpoint<E>>,
    prev: Option<Checkpoint<E>>,
    deltas: Files<E>,
    manifest: Entry,                 // the committed entry of the document map
    chain: Entry,                    // the same in memory
    log: seq<E>)

  datatype Action<+E> =
    | Log(row: E)
    | Rotate                         // the base becomes the previous one
    | WriteBase(wm: uint64)
    | RemoveDelta(s: nat)
    | WriteDelta(to: uint64)
    | Commit                         // the manifest is replaced
    | CrashAndReopen(kept: nat)      // so many rows of the log are left

  function BaseFile<E>(log: seq<E>, wm: uint64): Checkpoint<E>
    requires wm <= |log|
  {
    Checkpoint(wm, [Section(DOCMAP, true, Rows(log[..wm]))])
  }

  function DeltaFile<E>(log: seq<E>, gen: uint64, from: uint64, s: uint32, to: uint64): Checkpoint<E>
    requires from <= to <= |log|
  {
    Checkpoint(to, [Section(DELTA_INFO, true, Raw(InfoBytes(gen, from, s))),
                    Section(DOCMAP_DELTA, true, Rows(log[from..to]))])
  }

  /** The rows of the sections that hold rows. */
  function RowsOf<E>(sections: seq<Section<E>>): seq<E> {
    if sections == [] then []
    else (if sections[0].payload.Rows? then sections[0].payload.rows else []) + RowsOf(sections[1..])
  }

  predicate AllIntact<E>(sections: seq<Section<E>>) {
    forall i :: 0 <= i < |sections| ==> sections[i].crcOk
  }

  /** A delta with a bad section is refused as a whole. */
  function ApplyDelta<E>(state: seq<E>, c: Checkpoint<E>): Option<seq<E>> {
    if AllIntact(c.sections) then Some(state + RowsOf(c.sections)) else None
  }

  predicate BaseOk<E>(c: Checkpoint<E>) {
    AllIntact(c.sections) && exists i :: 0 <= i < |c.sections| && c.sections[i].kind == DOCMAP
  }

  // ---------------------------------------------------------------------------------------
  // Loading
  // ---------------------------------------------------------------------------------------

  datatype Loaded<+E> = Loaded(loaded: bool, watermark: nat, rows: seq<E>, fromPrev: bool)

  function FollowFrom<E>(deltas: Files<E>, base: Checkpoint<E>, n: nat): Option<Reached<seq<E>>> {
    After(deltas, base.watermark, Reached(base.watermark, RowsOf(base.sections)), (s, c) => ApplyDelta(s, c), n)
  }

  /** load_docmap. The previous base is tried if the current one is not the committed one, but what is found in it
      never counts as loaded. */
  method LoadDocmap<E(==)>(base: Option<Checkpoint<E>>, prev: Option<Checkpoint<E>>, deltas: Files<E>,
                      expected: uint64, chainSeq: uint32)
      returns (r: Loaded<E>)
    ensures r.loaded <==> base.Some? && base.value.watermark == expected && BaseOk(base.value)
                          && FollowFrom(deltas, base.value, chainSeq).Some?
    ensures r.loaded ==> FollowFrom(deltas, base.value, chainSeq) == Some(Reached(r.watermark, r.rows)) && !r.fromPrev
  {
    var failed := Loaded(false, 0, [], false);
    var lc, fromPrev := base, false;
    if lc.Some? && lc.value.watermark != expected {
      lc := None;
    }
    if lc == None {
      lc := prev;
      if lc.Some? && lc.value.watermark != expected {
        lc := None;
      }
      fromPrev := lc.Some?;
    }
    if lc == None || !BaseOk(lc.value) || fromPrev {
      return failed;
    }
    var w, rows := WalkChain(deltas, lc.value.watermark, Reached(lc.value.watermark, RowsOf(lc.value.sections)),
                             chainSeq, false,
                             (s, c) => ApplyDelta(s, c));
    if !w.ok {
      assert FollowFrom(deltas, lc.value, w.nextSeq) == None;
      if FollowFrom(deltas, lc.value, chainSeq).Some? {
        LinkedBefore(deltas, lc.value.watermark, Reached(lc.value.watermark, RowsOf(lc.value.sections)),
                     (s, c) => ApplyDelta(s, c), w.nextSeq, chainSeq);
      }
      return failed;
    }
    return Loaded(true, w.coverage, rows, false);
  }

  // ---------------------------------------------------------------------------------------
  // The steps
  // ---------------------------------------------------------------------------------------

  function Max(a: nat, b: nat): nat {
    if a < b then b else a
  }

  /** The base file is the one that this entry speaks of. */
  predicate Matches<E>(base: Option<Checkpoint<E>>, e: Entry) {
    base.Some? && base.value.watermark == e.baseWatermark
  }

  /** What loading finds: all that the entry promises, or nothing. */
  predicate LoadsAll<E>(w: World<E>) {
    && Matches(w.base, w.manifest) && BaseOk(w.base.value)
    && FollowFrom(w.deltas, w.base.value, w.manifest.chainSeq).Some?
  }

  ghost predicate Next<E>(w: World<E>, a: Action<E>, w': World<E>) {
    match a
    case Log(row) =>
      |w.log| < UINT64_MAX && w' == w.(log := w.log + [row])
    case Rotate =>
      w.base.Some? && w' == w.(prev := w.base, base := None)
    case WriteBase(wm) =>
      // Watermarks are taken from a counter, so a new one is not below one that was committed.
      && Max(w.manifest.chainWatermark, w.chain.chainWatermark) <= wm <= |w.log|
      && w' == w.(base := Some(BaseFile(w.log, wm)), chain := Entry(wm, 0, wm))
    case RemoveDelta(s) =>
      w.chain.chainSeq == 0 && w' == w.(deltas := w.deltas - {s})
    case WriteDelta(to) =>
      // A delta is only written if something has been logged since.
      var c := w.chain;
      && c.chainWatermark < to <= |w.log| && c.chainSeq < UINT32_MAX
      && w' == w.(deltas := w.deltas[c.chainSeq + 1 :=
                    Some(DeltaFile(w.log, c.baseWatermark, c.chainWatermark, c.chainSeq + 1, to))],
                  chain := Entry(c.baseWatermark, c.chainSeq + 1, to))
    case Commit =>
      w' == w.(manifest := w.chain)
    case CrashAndReopen(kept) =>
      && w.manifest.chainWatermark <= kept <= |w.log|
      && w' == w.(log := w.log[..kept], chain := if LoadsAll(w) then Reloaded(w) else Entry(0, 0, 0))
  }

  /** The chain in memory after a successful load. */
  ghost function Reloaded<E>(w: World<E>): Entry
    requires LoadsAll(w)
  {
    var reached := FollowFrom(w.deltas, w.base.value, w.manifest.chainSeq).value.coverage;
    if reached > UINT64_MAX then w.manifest   // no watermark is that large
    else Entry(w.manifest.baseWatermark, w.manifest.chainSeq, reached)
  }

  ghost predicate Start<E>(w: World<E>) {
    w.base == None && w.prev == None && w.deltas == map[] && w.manifest == w.chain == Entry(0, 0, 0) && w.log == []
  }

  // ---------------------------------------------------------------------------------------
  // The invariant
  // ---------------------------------------------------------------------------------------

  /** The files 1 to s take the state from position gen of the log to position wm, without a gap. */
  ghost predicate Linked<E>(deltas: Files<E>, log: seq<E>, gen: uint64, s: uint32, wm: uint64) {
    if s == 0 then wm == gen
    else
      wm <= |log| && s in deltas
      && exists from: uint64 :: gen <= from < wm && deltas[s] == Some(DeltaFile(log, gen, from, s, wm))
                                && Linked(deltas, log, gen, s - 1, from)
  }

  /** If the base file is the one that the entry speaks of, then everything the entry speaks of is there. */
  ghost predicate Sound<E>(w: World<E>, e: Entry) {
    && e.baseWatermark <= e.chainWatermark <= |w.log|
    && (e.chainSeq == 0 <==> e.chainWatermark == e.baseWatermark)
    && (Matches(w.base, e) ==> w.base == Some(BaseFile(w.log, e.baseWatermark))
                               && Linked(w.deltas, w.log, e.baseWatermark, e.chainSeq, e.chainWatermark))
  }

  predicate WholeBase<E>(c: Checkpoint<E>) {
    && |c.sections| == 1 && c.sections[0].kind == DOCMAP && c.sections[0].crcOk
    && c.sections[0].payload.Rows? && |c.sections[0].payload.rows| == c.watermark
  }

  ghost predicate Inv<E>(w: World<E>) {
    && Sound(w, w.manifest) && Sound(w, w.chain)
    && (w.base.Some? ==> WholeBase(w.base.value))
    && (Matches(w.base, w.manifest) ==>
         w.chain.baseWatermark == w.manifest.baseWatermark && w.manifest.chainSeq <= w.chain.chainSeq)
  }

  /** Neither the log behind wm nor files behind s matter. */
  lemma {:induction false} LinkedFrame<E>(deltas: Files<E>, deltas': Files<E>, log: seq<E>, log': seq<E>, gen: uint64,
                                          s: uint32, wm: uint64)
    requires Linked(deltas, log, gen, s, wm) && wm <= |log| && wm <= |log'| && log[..wm] == log'[..wm]
    requires forall i: nat :: 1 <= i <= s && i in deltas ==> i in deltas' && deltas'[i] == deltas[i]
    ensures Linked(deltas', log', gen, s, wm)
    decreases s
  {
    if s > 0 {
      var from: uint64 :| gen <= from < wm && deltas[s] == Some(DeltaFile(log, gen, from, s, wm))
                          && Linked(deltas, log, gen, s - 1, from);
      assert log[..from] == log[..wm][..from] && log'[..from] == log'[..wm][..from];
      assert log[from..wm] == log[..wm][from..] && log'[from..wm] == log'[..wm][from..];
      LinkedFrame(deltas, deltas', log, log', gen, s - 1, from);
      assert deltas'[s] == Some(DeltaFile(log', gen, from, s, wm));
    }
  }

  lemma DeltaLinks<E>(log: seq<E>, gen: uint64, from: uint64, s: uint32, to: uint64)
    requires from <= to <= |log|
    ensures var c := DeltaFile(log, gen, from, s, to);
            Links(c, gen, from, s) && ApplyDelta(log[..from], c) == Some(log[..to])
  {
    InfoReadsBack(gen, from, s);
    var c := DeltaFile(log, gen, from, s, to);
    assert RowsOf(c.sections[1..][1..]) == [];
    assert RowsOf(c.sections[1..]) == log[from..to];
    assert RowsOf(c.sections) == log[from..to];
    assert log[..from] + log[from..to] == log[..to];
  }

  /** A linked chain is walked to its end, and gives the log up to its end. */
  lemma {:induction false} LinkedIsFollowed<E>(deltas: Files<E>, log: seq<E>, gen: uint64, s: uint32, wm: uint64)
    requires gen <= |log| && wm <= |log| && Linked(deltas, log, gen, s, wm)
    ensures After(deltas, gen, Reached(gen, log[..gen]), (s, c) => ApplyDelta(s, c), s) == Some(Reached(wm, log[..wm]))
    decreases s
  {
    if s > 0 {
      var from: uint64 :| gen <= from < wm && deltas[s] == Some(DeltaFile(log, gen, from, s, wm))
                          && Linked(deltas, log, gen, s - 1, from);
      LinkedIsFollowed(deltas, log, gen, s - 1, from);
      DeltaLinks(log, gen, from, s, wm);
    }
  }

  /** Loading finds all that was committed, or refuses; which of the two the watermark of the base tells. */
  lemma LoadIsRight<E>(w: World<E>)
    requires Inv(w)
    ensures LoadsAll(w) <==> Matches(w.base, w.manifest)
    ensures LoadsAll(w) ==> FollowFrom(w.deltas, w.base.value, w.manifest.chainSeq)
                            == Some(Reached(w.manifest.chainWatermark, w.log[..w.manifest.chainWatermark]))
  {
    if Matches(w.base, w.manifest) {
      var e := w.manifest;
      var c := w.base.value;
      assert c.sections[0].kind == DOCMAP;
      assert RowsOf(c.sections[1..]) == [];
      assert RowsOf(c.sections) == w.log[..e.baseWatermark];
      LinkedIsFollowed(w.deltas, w.log, e.baseWatermark, e.chainSeq, e.chainWatermark);
    }
  }

  // ---------------------------------------------------------------------------------------
  // Every step keeps it
  // ---------------------------------------------------------------------------------------

  /** What happens behind an entry does not hurt it. */
  lemma StillSound<E>(w: World<E>, w': World<E>, e: Entry)
    requires Sound(w, e) && e.chainWatermark <= |w'.log| && w.log[..e.chainWatermark] == w'.log[..e.chainWatermark]
    requires w'.base == w.base
    requires Matches(w.base, e) ==>
               forall i: nat :: 1 <= i <= e.chainSeq && i in w.deltas ==> i in w'.deltas && w'.deltas[i] == w.deltas[i]
    ensures Sound(w', e)
  {
    if Matches(w.base, e) {
      assert w.log[..e.baseWatermark] == w.log[..e.chainWatermark][..e.baseWatermark];
      assert w'.log[..e.baseWatermark] == w'.log[..e.chainWatermark][..e.baseWatermark];
      LinkedFrame(w.deltas, w'.deltas, w.log, w'.log, e.baseWatermark, e.chainSeq, e.chainWatermark);
    }
  }

  lemma KeepLog<E>(w: World<E>, row: E, w': World<E>)
    requires Inv(w) && Next(w, Log(row), w')
    ensures Inv(w')
  {
    var m, c := w.manifest.chainWatermark, w.chain.chainWatermark;
    assert w.log[..m] == w'.log[..m] && w.log[..c] == w'.log[..c];
    StillSound(w, w', w.manifest);
    StillSound(w, w', w.chain);
  }

  lemma KeepWriteBase<E>(w: World<E>, wm: uint64, w': World<E>)
    requires Inv(w) && Next(w, WriteBase(wm), w')
    ensures Inv(w')
  {
    assert wm >= w.manifest.chainWatermark;
  }

  lemma KeepRemoveDelta<E>(w: World<E>, s: nat, w': World<E>)
    requires Inv(w) && Next(w, RemoveDelta(s), w')
    ensures Inv(w')
  {
    StillSound(w, w', w.manifest);
    StillSound(w, w', w.chain);
  }

  lemma KeepWriteDelta<E>(w: World<E>, to: uint64, w': World<E>)
    requires Inv(w) && Next(w, WriteDelta(to), w')
    ensures Inv(w')
  {
    StillSound(w, w', w.manifest);
    StillSound(w, w', w.chain);
    var c, s: uint32 := w.chain, w.chain.chainSeq + 1;
    if Matches(w.base, c) {
      assert w'.deltas[s] == Some(DeltaFile(w'.log, c.baseWatermark, c.chainWatermark, s, to));
      assert Linked(w'.deltas, w'.log, c.baseWatermark, s - 1, c.chainWatermark);
      assert Linked(w'.deltas, w'.log, c.baseWatermark, s, to);
    }
  }

  lemma KeepCrash<E>(w: World<E>, kept: nat, w': World<E>)
    requires Inv(w) && Next(w, CrashAndReopen(kept), w')
    ensures Inv(w')
  {
    LoadIsRight(w);
    var m := w.manifest.chainWatermark;
    assert w.log[..m] == w'.log[..m];
    StillSound(w, w', w.manifest);
    if LoadsAll(w) {
      assert w'.chain == w'.manifest;
    } else if Matches(w.base, w'.chain) {
      assert w.base.value == Checkpoint(0, [Section(DOCMAP, true, Rows([]))]);
      assert w'.log[..0] == [];
    }
  }

  lemma NextKeeps<E>(w: World<E>, a: Action<E>, w': World<E>)
    requires Inv(w) && Next(w, a, w')
    ensures Inv(w')
  {
    match a
    case Log(row) => KeepLog(w, row, w');
    case Rotate =>
    case WriteBase(wm) => KeepWriteBase(w, wm, w');
    case RemoveDelta(s) => KeepRemoveDelta(w, s, w');
    case WriteDelta(to) => KeepWriteDelta(w, to, w');
    case Commit =>
    case CrashAndReopen(kept) => KeepCrash(w, kept, w');
  }

  // ---------------------------------------------------------------------------------------
  // Runs
  // ---------------------------------------------------------------------------------------

  ghost predicate IsRun<E>(ws: seq<World<E>>, actions: seq<Action<E>>) {
    && |ws| == |actions| + 1 && Start(ws[0])
    && forall i :: 0 <= i < |actions| ==> Next(ws[i], actions[i], ws[i + 1])
  }

  lemma {:induction false} RunKeeps<E>(ws: seq<World<E>>, actions: seq<Action<E>>, n: nat)
    requires IsRun(ws, actions) && n <= |actions|
    ensures Inv(ws[n])
    decreases n
  {
    if n > 0 {
      RunKeeps(ws, actions, n - 1);
      NextKeeps(ws[n - 1], actions[n - 1], ws[n]);
    }
  }

  /** At any time in any run a load finds exactly the log up to the committed watermark, or it finds nothing, in
      which case the base is not the committed one. */
  lemma NoLoadIsWrong<E>(ws: seq<World<E>>, actions: seq<Action<E>>, n: nat)
    requires IsRun(ws, actions) && n <= |actions|
    ensures var w := ws[n];
            && (LoadsAll(w) <==> Matches(w.base, w.manifest))
            && w.manifest.chainWatermark <= |w.log|
            && (LoadsAll(w) ==> FollowFrom(w.deltas, w.base.value, w.manifest.chainSeq)
                                == Some(Reached(w.manifest.chainWatermark, w.log[..w.manifest.chainWatermark])))
  {
    RunKeeps(ws, actions, n);
    LoadIsRight(ws[n]);
  }

  /** A round that is committed counts: after the base or a delta and the manifest have been written, a load finds
      the log up to the round's watermark. For a delta the base must be in place. */
  lemma CommittedRoundLoads<E>(w: World<E>, a: Action<E>, w1: World<E>, w2: World<E>, wm: uint64)
    requires Inv(w) && Next(w, a, w1) && Next(w1, Commit, w2)
    requires a == WriteBase(wm) || (a == WriteDelta(wm) && Matches(w.base, w.chain))
    ensures LoadsAll(w2) && FollowFrom(w2.deltas, w2.base.value, w2.manifest.chainSeq) == Some(Reached(wm, w.log[..wm]))
  {
    NextKeeps(w, a, w1);
    NextKeeps(w1, Commit, w2);
    LoadIsRight(w2);
  }

  /** A crash before the manifest is written leaves an orphan that nobody sees. */
  lemma OrphanIsIgnored<E>(w: World<E>, to: uint64, w1: World<E>, kept: nat, w2: World<E>)
    requires Inv(w) && Next(w, WriteDelta(to), w1) && Next(w1, CrashAndReopen(kept), w2)
    ensures LoadsAll(w2) <==> LoadsAll(w)
    ensures LoadsAll(w) ==>
              FollowFrom(w2.deltas, w2.base.value, w2.manifest.chainSeq)
              == FollowFrom(w.deltas, w.base.value, w.manifest.chainSeq)
  {
    NextKeeps(w, WriteDelta(to), w1);
    NextKeeps(w1, CrashAndReopen(kept), w2);
    LoadIsRight(w);
    LoadIsRight(w2);
    var m := w.manifest.chainWatermark;
    assert w2.log[..m] == w.log[..m];
  }
}
