/**
  The append-only row array (include/bitcask/row_chunks.hpp): fixed-size chunks that never move, and a
  table of chunk pointers (the spine) that is copied to a larger one and republished when it is full.
 */
module RowChunks {
  import opened Bytes

  const CHUNK: nat := 256
  const FIRST_SPINE: nat := 8

  /** The slots all retired spines hold together. */
  ghost function Slots<T>(spines: seq<array<T>>): nat {
    if spines == [] then 0 else Slots(spines[..|spines| - 1]) + spines[|spines| - 1].Length
  }

  /** One writer's view of the container. */
  class Rows<T(0)> {
    var chunks: seq<array<T>>                 // chunks_
    var graveyard: seq<array<array?<T>>>      // graveyard_: retired spines
    var spine: array<array?<T>>               // spine_pub_; of length 0 before the first push
    var size: nat

    /** Enough chunks for n rows, each where the spine says it is. */
    ghost predicate ValidFor(n: nat)
      reads this, spine
    {
      && |chunks| == (n + CHUNK - 1) / CHUNK <= spine.Length
      && (forall k :: 0 <= k < |chunks| ==> chunks[k].Length == CHUNK && spine[k] == chunks[k])
      && (forall k :: 0 <= k < |chunks| ==> (chunks[k] as object) != spine)
      && (forall k, l :: 0 <= k < l < |chunks| ==> chunks[k] != chunks[l])
      && (spine.Length == 0 ==> graveyard == [])
      && (spine.Length != 0 ==> Slots(graveyard) + FIRST_SPINE == spine.Length)
    }

    ghost predicate Valid()
      reads this, spine
    {
      ValidFor(size)
    }

    ghost function Contents(): (rows: seq<T>)
      requires Valid()
      reads this, spine, chunks
      ensures |rows| == size
      ensures forall i :: 0 <= i < size ==> rows[i] == chunks[i / CHUNK][i % CHUNK]
    {
      seq(size, i requires 0 <= i < size && Valid() reads this, spine, chunks => chunks[i / CHUNK][i % CHUNK])
    }

    constructor ()
      ensures Valid() && Contents() == []
    {
      chunks, graveyard, size := [], [], 0;
      spine := new array?<T>[0];
    }

    /** A spine of twice the capacity with the same pointers in it; the old one is kept. */
    method GrowSpine()
      requires |chunks| == spine.Length + 1
      modifies this`spine, this`graveyard
      ensures fresh(spine) && |chunks| <= spine.Length
      ensures spine.Length == if old(spine).Length == 0 then FIRST_SPINE else 2 * old(spine).Length
      ensures graveyard == if old(spine).Length == 0 then old(graveyard) else old(graveyard) + [old(spine)]
      ensures forall k :: 0 <= k < |chunks| ==> spine[k] == chunks[k]
    {
      var cap := if spine.Length != 0 then spine.Length * 2 else FIRST_SPINE;
      var ns := new array?<T>[cap](_ => null);
      for k := 0 to |chunks|
        invariant spine == old(spine) && graveyard == old(graveyard)
        invariant forall j :: 0 <= j < k ==> ns[j] == chunks[j]
      {
        ns[k] := chunks[k];
      }
      if spine.Length != 0 {
        graveyard := graveyard + [spine];
      }
      spine := ns;
    }

    /** A place for row `size`: no chunk moves and no row changes. */
    method EnsureSlot()
      requires Valid()
      modifies this`chunks, this`spine, this`graveyard, spine
      ensures ValidFor(size + 1) && size == old(size)
      ensures old(chunks) <= chunks
      ensures chunks != old(chunks) ==> fresh(chunks[|chunks| - 1])
      ensures forall k :: 0 <= k < |old(chunks)| ==> old(spine)[k] == old(chunks[k])
      ensures spine == old(spine) || fresh(spine)
    {
      if size / CHUNK == |chunks| {
        var chunk := new T[CHUNK];
        chunks := chunks + [chunk];
        if |chunks| > spine.Length {
          GrowSpine();
        } else {
          spine[size / CHUNK] := chunk;
        }
      }
    }

    method PushBack(v: T)
      requires Valid()
      modifies this, spine, chunks
      ensures Valid() && Contents() == old(Contents()) + [v]
      ensures old(chunks) <= chunks && Slots(graveyard) < spine.Length
    {
      EnsureSlot();
      chunks[size / CHUNK][size % CHUNK] := v;
      size := size + 1;
    }

    /** operator[]: two loads from the published spine. */
    method Get(i: nat) returns (v: T)
      requires Valid() && i < size
      ensures v == Contents()[i]
    {
      var chunk := spine[i / CHUNK];
      v := chunk[i % CHUNK];
    }
  }

  // ---------------------------------------------------------------------------------------
  // One writer, any number of readers
  // ---------------------------------------------------------------------------------------

  /** Where the writer is inside push_back. */
  datatype WriterPc<T> =
    | Outside
    | Grown(v: T)                            // chunk in the list, the spine full: about to publish a larger one
    | Slotting(v: T)                         // chunk in the list, about to write its spine slot
    | Filling(v: T)                          // slot found, about to write the element
    | Counting                               // element written, about to advance size_

  /** A reader at an index below a count it has loaded, stopped between any two loads. */
  datatype ReaderPc<T> =
    | HasCount(i: nat, count: nat)
    | HasSpine(i: nat, spine: nat)
    | HasChunk(i: nat, chunk: nat)
    | HasValue(i: nat, value: T)

  /** Pointers are positions: a spine is its number in the order of publication (0 is the null spine),
      a chunk its number in the order of allocation. A slot nobody has written holds None, a row nobody
      has written the element's default. */
  datatype State<T> = State(
    chunks: seq<seq<T>>,
    spines: seq<seq<Option<nat>>>,           // the last one is published, the others are in the graveyard
    size: nat,
    published: nat,                          // count_pub_
    writer: WriterPc<T>,
    readers: seq<ReaderPc<T>>,
    pushed: seq<T>)                          // every row written, for the specification only

  datatype Event<T> =
    | Push(v: T, blank: T) | PublishSpine | WriteSlot | Fill | Advance | Announce
    | LoadCount(i: nat)                      // a new reader
    | LoadSpine(r: nat) | LoadChunk(r: nat) | LoadRow(r: nat)

  function Current<T>(s: State<T>): (n: nat)
    requires s.spines != []
    ensures n == |s.spines| - 1
  {
    |s.spines| - 1
  }

  ghost predicate Enabled<T>(s: State<T>, ev: Event<T>) {
    s.spines != [] &&
    match ev
    case Push(_, _) => s.writer.Outside?
    case PublishSpine => s.writer.Grown?
    case WriteSlot => s.writer.Slotting?
    case Fill => s.writer.Filling?
    case Advance => s.writer.Counting?
    case Announce => s.writer.Outside?
    case LoadCount(i) => i < s.published
    case LoadSpine(r) => r < |s.readers| && s.readers[r].HasCount?
    case LoadChunk(r) => r < |s.readers| && s.readers[r].HasSpine?
    case LoadRow(r) => r < |s.readers| && s.readers[r].HasChunk?
  }

  /** The step stays in bounds, and a reader follows only pointers that were written. */
  ghost predicate Safe<T>(s: State<T>, ev: Event<T>)
    requires Enabled(s, ev)
  {
    match ev
    case PublishSpine => |s.chunks| <= NextCap(|s.spines[Current(s)]|)
    case WriteSlot => 0 < |s.chunks| <= |s.spines[Current(s)]|
    case Fill => s.size / CHUNK < |s.chunks| && s.size % CHUNK < |s.chunks[s.size / CHUNK]|
    case LoadChunk(r) =>
      var pc := s.readers[r];
      && pc.spine < |s.spines| && pc.i / CHUNK < |s.spines[pc.spine]|
      && s.spines[pc.spine][pc.i / CHUNK].Some?
    case LoadRow(r) =>
      var pc := s.readers[r];
      pc.chunk < |s.chunks| && pc.i % CHUNK < |s.chunks[pc.chunk]|
    case _ => true
  }

  function Rows0<T>(n: nat, blank: T): (rows: seq<T>)
    ensures |rows| == n && forall i :: 0 <= i < n ==> rows[i] == blank
  {
    seq(n, i => blank)
  }

  /** A new spine holding the pointers of all n chunks. */
  function Copied(n: nat, cap: nat): (spine: seq<Option<nat>>)
    requires n <= cap
    ensures |spine| == cap && forall k :: 0 <= k < n ==> spine[k] == Some(k)
  {
    seq(cap, k => if k < n then Some(k) else None)
  }

  ghost function Step<T>(s: State<T>, ev: Event<T>): State<T>
    requires Enabled(s, ev) && Safe(s, ev)
  {
    match ev
    case Push(v, blank) =>
      if s.size / CHUNK == |s.chunks| then
        s.(chunks := s.chunks + [Rows0(CHUNK, blank)],
           writer := if |s.chunks| + 1 > |s.spines[Current(s)]| then Grown(v) else Slotting(v))
      else s.(writer := Filling(v))
    case PublishSpine =>
      s.(spines := s.spines + [Copied(|s.chunks|, NextCap(|s.spines[Current(s)]|))], writer := Filling(s.writer.v))
    case WriteSlot =>
      var n := |s.chunks| - 1;
      s.(spines := s.spines[Current(s) := s.spines[Current(s)][n := Some(n)]], writer := Filling(s.writer.v))
    case Fill =>
      var c := s.size / CHUNK;
      s.(chunks := s.chunks[c := s.chunks[c][s.size % CHUNK := s.writer.v]],
         pushed := s.pushed + [s.writer.v], writer := Counting)
    case Advance => s.(size := s.size + 1, writer := Outside)
    case Announce => s.(published := s.size)
    case LoadCount(i) => s.(readers := s.readers + [HasCount(i, s.published)])
    case LoadSpine(r) => s.(readers := s.readers[r := HasSpine(s.readers[r].i, Current(s))])
    case LoadChunk(r) =>
      var pc := s.readers[r];
      s.(readers := s.readers[r := HasChunk(pc.i, s.spines[pc.spine][pc.i / CHUNK].value)])
    case LoadRow(r) =>
      var pc := s.readers[r];
      s.(readers := s.readers[r := HasValue(pc.i, s.chunks[pc.chunk][pc.i % CHUNK])])
  }

  function NextCap(cap: nat): nat {
    if cap == 0 then FIRST_SPINE else 2 * cap
  }

  function Start<T>(): State<T> {
    State([], [[]], 0, 0, Outside, [], [])
  }

  // ---------------------------------------------------------------------------------------
  // The invariant
  // ---------------------------------------------------------------------------------------

  /** The chunks whose pointer is in the current spine. */
  function Listed<T>(s: State<T>): int {
    if s.writer.Grown? || s.writer.Slotting? then |s.chunks| - 1 else |s.chunks|
  }

  ghost predicate WriterOk<T>(s: State<T>) {
    && s.spines != []
    && s.published <= s.size
    && |s.pushed| == s.size + (if s.writer.Counting? then 1 else 0)
    && |s.chunks| == (s.size + (if s.writer.Outside? then 0 else 1) + CHUNK - 1) / CHUNK
    && ((s.writer.Grown? || s.writer.Slotting?) ==> s.size % CHUNK == 0)
    && (s.writer.Grown? ==> |s.chunks| == |s.spines[Current(s)]| + 1)
    && (!s.writer.Grown? ==> |s.chunks| <= |s.spines[Current(s)]|)
    && (forall k :: 0 <= k < Listed(s) ==> s.spines[Current(s)][k] == Some(k))
  }

  ghost predicate RowsOk<T>(s: State<T>) {
    && (forall k :: 0 <= k < |s.chunks| ==> |s.chunks[k]| == CHUNK)
    && (forall i :: 0 <= i < |s.pushed| ==> i / CHUNK < |s.chunks| && s.chunks[i / CHUNK][i % CHUNK] == s.pushed[i])
  }

  ghost predicate ReaderOk<T>(s: State<T>, pc: ReaderPc<T>) {
    match pc
    case HasCount(i, count) => i < count <= s.published
    case HasSpine(i, k) =>
      && i < s.published && k < |s.spines| && i / CHUNK < |s.spines[k]|
      && s.spines[k][i / CHUNK] == Some(i / CHUNK)
    case HasChunk(i, c) => i < s.published && c == i / CHUNK
    case HasValue(i, v) => i < s.published && i < |s.pushed| && v == s.pushed[i]
  }

  ghost predicate ReadersOk<T>(s: State<T>) {
    forall r :: 0 <= r < |s.readers| ==> ReaderOk(s, s.readers[r])
  }

  ghost predicate Inv<T>(s: State<T>) {
    WriterOk(s) && RowsOk(s) && ReadersOk(s)
  }

  lemma StepIsSafe<T>(s: State<T>, ev: Event<T>)
    requires Inv(s) && Enabled(s, ev)
    ensures Safe(s, ev)
  {
  }

  lemma KeepsWriter<T>(s: State<T>, ev: Event<T>)
    requires Inv(s) && Enabled(s, ev) && Safe(s, ev)
    ensures WriterOk(Step(s, ev))
  {
  }

  lemma KeepsRows<T>(s: State<T>, ev: Event<T>)
    requires Inv(s) && Enabled(s, ev) && Safe(s, ev)
    ensures RowsOk(Step(s, ev))
  {
  }

  lemma KeepsReaders<T>(s: State<T>, ev: Event<T>)
    requires Inv(s) && Enabled(s, ev) && Safe(s, ev)
    ensures ReadersOk(Step(s, ev))
  {
  }

  // ---------------------------------------------------------------------------------------
  // Every run
  // ---------------------------------------------------------------------------------------

  /** The states of a run. Nothing is said about the state after a step that is not safe. */
  ghost predicate IsRun<T(!new)>(run: seq<State<T>>, events: seq<Event<T>>) {
    && |run| == |events| + 1 && run[0] == Start()
    && forall k :: 0 <= k < |events| ==>
         Enabled(run[k], events[k]) && (Safe(run[k], events[k]) ==> run[k + 1] == Step(run[k], events[k]))
  }

  lemma StepKeepsInv<T>(s: State<T>, ev: Event<T>)
    requires Inv(s) && Enabled(s, ev)
    ensures Safe(s, ev) && Inv(Step(s, ev)) && s.pushed <= Step(s, ev).pushed
  {
    StepIsSafe(s, ev);
    KeepsWriter(s, ev);
    KeepsRows(s, ev);
    KeepsReaders(s, ev);
  }

  lemma {:induction false} RunKeepsInv<T(!new)>(run: seq<State<T>>, events: seq<Event<T>>, k: nat)
    requires IsRun(run, events) && k < |run|
    ensures Inv(run[k])
  {
    if k > 0 {
      RunKeepsInv(run, events, k - 1);
      StepKeepsInv(run[k - 1], events[k - 1]);
    }
  }

  /** However many spines are published between its loads, a reader stays in bounds and ends up with the
      row that was pushed at its index. */
  lemma ReadersSeeWhatWasPushed<T(!new)>(run: seq<State<T>>, events: seq<Event<T>>, k: nat)
    requires IsRun(run, events) && k < |run|
    ensures k < |events| ==> Safe(run[k], events[k])
    ensures forall r :: 0 <= r < |run[k].readers| && run[k].readers[r].HasValue? ==>
              run[k].readers[r].i < |run[k].pushed|
              && run[k].readers[r].value == run[k].pushed[run[k].readers[r].i]
  {
    RunKeepsInv(run, events, k);
    if k < |events| {
      StepIsSafe(run[k], events[k]);
    }
    forall r | 0 <= r < |run[k].readers| && run[k].readers[r].HasValue?
      ensures run[k].readers[r].i < |run[k].pushed|
              && run[k].readers[r].value == run[k].pushed[run[k].readers[r].i]
    {
      assert ReaderOk(run[k], run[k].readers[r]);
    }
  }

  lemma {:induction false} PushedOnlyGrows<T(!new)>(run: seq<State<T>>, events: seq<Event<T>>, j: nat, k: nat)
    requires IsRun(run, events) && j <= k < |run|
    ensures run[j].pushed <= run[k].pushed
    decreases k
  {
    if j < k {
      PushedOnlyGrows(run, events, j, k - 1);
      RunKeepsInv(run, events, k - 1);
      StepKeepsInv(run[k - 1], events[k - 1]);
    }
  }

  ghost predicate RowIs<T>(s: State<T>, i: nat, v: T) {
    i / CHUNK < |s.chunks| && i % CHUNK < |s.chunks[i / CHUNK]| && s.chunks[i / CHUNK][i % CHUNK] == v
  }

  /** A row, once written, is at the same place with the same value ever after. */
  lemma RowsNeverMove<T(!new)>(run: seq<State<T>>, events: seq<Event<T>>, j: nat, k: nat, i: nat)
    requires IsRun(run, events) && j <= k < |run| && i < |run[j].pushed|
    ensures RowIs(run[j], i, run[j].pushed[i]) && RowIs(run[k], i, run[j].pushed[i])
  {
    RunKeepsInv(run, events, j);
    RunKeepsInv(run, events, k);
    PushedOnlyGrows(run, events, j, k);
  }
}
