/**
  Epoch-based reclamation (include/bitcask/epoch_reclaim.hpp): the registry of reader slots as a class,
  and the protocol of readers and writers as a machine whose steps are single atomic accesses. Any
  number of readers and writers take steps in any order; a reader may stop between any two accesses,
  and a writer looks at one slot per step while it scans. Memory is sequentially consistent.
 */
module EpochReclaim {
  import opened Bytes

  const SLOTS: nat := 64

  // ---------------------------------------------------------------------------------------
  // The registry
  // ---------------------------------------------------------------------------------------

  /** One slot's share of min_active. */
  function Lower(m: uint64, v: uint64): uint64 {
    if v != 0 && v < m then v else m
  }

  /** The smallest non-zero entry, UINT64_MAX when there is none. */
  ghost predicate IsMinActive(active: seq<uint64>, m: uint64) {
    && (forall i :: 0 <= i < |active| && active[i] != 0 ==> m <= active[i])
    && (m == UINT64_MAX || exists i :: 0 <= i < |active| && active[i] != 0 && m == active[i])
  }

  class Registry {
    var epoch: uint64
    const active: array<uint64>
    const inUse: array<bool>

    ghost predicate Valid()
      reads this, inUse, active
    {
      && active.Length == SLOTS && inUse.Length == SLOTS
      && forall i :: 0 <= i < SLOTS && !inUse[i] ==> active[i] == 0
    }

    constructor ()
      ensures Valid() && epoch == 1 && fresh(active) && fresh(inUse)
      ensures forall i :: 0 <= i < SLOTS ==> !inUse[i]
    {
      epoch := 1;
      active := new uint64[SLOTS](i => 0);
      inUse := new bool[SLOTS](i => false);
    }

    method Current() returns (e: uint64)
      ensures e == epoch
    {
      e := epoch;
    }

    /** fetch_add(1) + 1, on a counter that wraps at 2^64. */
    method Advance() returns (stamp: uint64)
      modifies this`epoch
      ensures stamp == epoch == (old(epoch) as int + 1) % 0x1_0000_0000_0000_0000
    {
      epoch := (epoch as int + 1) % 0x1_0000_0000_0000_0000;
      stamp := epoch;
    }

    method MinActive() returns (m: uint64)
      requires Valid()
      ensures IsMinActive(active[..], m)
    {
      m := UINT64_MAX;
      for i := 0 to SLOTS
        invariant IsMinActive(active[..i], m)
      {
        m := Lower(m, active[i]);
        assert active[..i + 1][..i] == active[..i];
      }
      assert active[..SLOTS] == active[..];
    }

    /** The first free slot, or -1 for nullptr when every slot is taken. */
    method AcquireSlot() returns (slot: int)
      requires Valid()
      modifies active, inUse
      ensures Valid() && -1 <= slot < SLOTS
      ensures slot == -1 ==> active[..] == old(active[..]) && inUse[..] == old(inUse[..])
      ensures slot == -1 <==> forall i :: 0 <= i < SLOTS ==> old(inUse[i])
      ensures slot >= 0 ==> !old(inUse[slot]) && inUse[..] == old(inUse[..])[slot := true]
      ensures slot >= 0 ==> active[..] == old(active[..])[slot := 0]
      ensures slot >= 0 ==> forall i :: 0 <= i < slot ==> old(inUse[i])
    {
      for i := 0 to SLOTS
        invariant forall k :: 0 <= k < i ==> inUse[k]
        invariant inUse[..] == old(inUse[..]) && active[..] == old(active[..])
      {
        if !inUse[i] {
          inUse[i] := true;
          active[i] := 0;
          return i;
        }
      }
      return -1;
    }

    method ReleaseSlot(slot: int)
      requires Valid() && -1 <= slot < SLOTS
      modifies active, inUse
      ensures Valid()
      ensures slot == -1 ==> active[..] == old(active[..]) && inUse[..] == old(inUse[..])
      ensures slot >= 0 ==> active[..] == old(active[..])[slot := 0] && inUse[..] == old(inUse[..])[slot := false]
    {
      if slot == -1 {
        return;
      }
      active[slot] := 0;
      inUse[slot] := false;
    }
  }

  // ---------------------------------------------------------------------------------------
  // The protocol
  // ---------------------------------------------------------------------------------------

  /** Where a reader thread is. Slot numbers are positions in the registry. */
  datatype Reader =
    | Looking(slot: nat)                                    // about to load in_use of this slot
    | Trying(slot: nat)                                     // saw it free, about to compare-and-swap
    | Clearing(slot: nat)                                   // claimed it, about to store active = 0
    | Idle(slot: nat)                                       // owns it, outside any critical section
    | Entering(slot: nat, e: nat)                           // has loaded the epoch, not stored it yet
    | Reading(slot: nat, e: nat, held: set<nat>)            // has stored it; may use what it holds
    | Leaving(slot: nat)                                    // thread exit: active cleared, in_use not yet
    | Gone                                                  // released, or found no free slot

  datatype Writer =
    | Ready
    | Unlinked(block: nat)                                  // taken out of the structure, not retired yet
    | Scanning(slot: nat, m: uint64)                        // min_active, about to load this slot

  datatype Status =
    | Live                                                  // reachable in the structure
    | Detached(writer: nat)                                     // unlinked by a writer, not yet stamped
    | Limbo(writer: nat, stamp: nat)                            // in that writer's limbo
    | Freed

  datatype State = State(
    epoch: nat,
    active: seq<uint64>,
    inUse: seq<bool>,
    blocks: map<nat, Status>,
    readers: seq<Reader>,
    writers: seq<Writer>)

  datatype Event =
    | Spawn                                                 // a new reader thread
    | Look(r: nat) | TryClaim(r: nat) | Clear(r: nat)
    | LoadEpoch(r: nat) | Publish(r: nat)
    | Take(r: nat, b: nat) | Exit(r: nat)
    | Quit(r: nat) | Release(r: nat)
    | Join                                                  // a new writer
    | Link(w: nat, b: nat) | Unlink(w: nat, b: nat) | Retire(w: nat)
    | StartScan(w: nat) | Scan(w: nat) | Reclaim(w: nat, free: set<nat>)

  predicate ByReader(ev: Event) {
    ev.Look? || ev.TryClaim? || ev.Clear? || ev.LoadEpoch? || ev.Publish? || ev.Take? || ev.Exit? || ev.Quit?
    || ev.Release?
  }

  predicate ByWriter(ev: Event) {
    ev.Link? || ev.Unlink? || ev.Retire? || ev.StartScan? || ev.Scan? || ev.Reclaim?
  }

  predicate Owns(r: Reader) {
    r.Clearing? || r.Idle? || r.Entering? || r.Reading? || r.Leaving?
  }

  predicate ReaderAt(s: State, r: nat) {
    r < |s.readers| && !s.readers[r].Gone? && s.readers[r].slot < SLOTS == |s.active| == |s.inUse|
  }

  predicate WriterAt(s: State, w: nat) {
    w < |s.writers| && |s.active| == SLOTS
  }

  predicate Enabled(s: State, ev: Event) {
    match ev
    case Spawn => true
    case Look(r) => ReaderAt(s, r) && s.readers[r].Looking?
    case TryClaim(r) => ReaderAt(s, r) && s.readers[r].Trying?
    case Clear(r) => ReaderAt(s, r) && s.readers[r].Clearing?
    case LoadEpoch(r) => ReaderAt(s, r) && s.readers[r].Idle?
    case Publish(r) => ReaderAt(s, r) && s.readers[r].Entering? && s.readers[r].e <= UINT64_MAX
    case Take(r, b) => ReaderAt(s, r) && s.readers[r].Reading? && b in s.blocks && s.blocks[b] == Live
    case Exit(r) => ReaderAt(s, r) && s.readers[r].Reading?
    case Quit(r) => ReaderAt(s, r) && s.readers[r].Idle?
    case Release(r) => ReaderAt(s, r) && s.readers[r].Leaving?
    case Join => true
    case Link(w, b) => WriterAt(s, w) && s.writers[w] == Ready && b !in s.blocks
    case Unlink(w, b) => WriterAt(s, w) && s.writers[w] == Ready && b in s.blocks && s.blocks[b] == Live
    case Retire(w) => WriterAt(s, w) && s.writers[w].Unlinked? && s.epoch < UINT64_MAX
    case StartScan(w) => WriterAt(s, w) && s.writers[w] == Ready
    case Scan(w) => WriterAt(s, w) && s.writers[w].Scanning? && s.writers[w].slot < SLOTS
    case Reclaim(w, free) =>
      && WriterAt(s, w) && s.writers[w].Scanning? && s.writers[w].slot == SLOTS
      && (forall b :: b in free ==> b in s.blocks && s.blocks[b].Limbo? && s.blocks[b].writer == w
                                    && s.blocks[b].stamp < s.writers[w].m)
  }

  /** The next slot to look at, or giving up after the last. */
  function NextSlot(slot: nat): Reader {
    if slot + 1 < SLOTS then Looking(slot + 1) else Gone
  }

  function At(s: State, r: nat, reader: Reader): State
    requires r < |s.readers|
  {
    s.(readers := s.readers[r := reader])
  }

  function ReaderStep(s: State, ev: Event): State
    requires Enabled(s, ev)
    requires ByReader(ev)
  {
    var pc := s.readers[ev.r];
    match ev
    case Look(r) => At(s, r, if s.inUse[pc.slot] then NextSlot(pc.slot) else Trying(pc.slot))
    case TryClaim(r) =>
      if s.inUse[pc.slot] then At(s, r, NextSlot(pc.slot))
      else At(s, r, Clearing(pc.slot)).(inUse := s.inUse[pc.slot := true])
    case Clear(r) => At(s, r, Idle(pc.slot)).(active := s.active[pc.slot := 0])
    case LoadEpoch(r) => At(s, r, Entering(pc.slot, s.epoch))
    case Publish(r) => At(s, r, Reading(pc.slot, pc.e, {})).(active := s.active[pc.slot := pc.e])
    case Take(r, b) => At(s, r, pc.(held := pc.held + {b}))
    case Exit(r) => At(s, r, Idle(pc.slot)).(active := s.active[pc.slot := 0])
    case Quit(r) => At(s, r, Leaving(pc.slot)).(active := s.active[pc.slot := 0])
    case Release(r) => At(s, r, Gone).(inUse := s.inUse[pc.slot := false])
  }

  function WriterStep(s: State, ev: Event): State
    requires Enabled(s, ev)
    requires ByWriter(ev)
  {
    var pc := s.writers[ev.w];
    match ev
    case Link(w, b) => s.(blocks := s.blocks[b := Live])
    case Unlink(w, b) => s.(blocks := s.blocks[b := Detached(w)], writers := s.writers[w := Unlinked(b)])
    case Retire(w) =>
      s.(epoch := s.epoch + 1, blocks := s.blocks[pc.block := Limbo(w, s.epoch + 1)],
         writers := s.writers[w := Ready])
    case StartScan(w) => s.(writers := s.writers[w := Scanning(0, UINT64_MAX)])
    case Scan(w) => s.(writers := s.writers[w := Scanning(pc.slot + 1, Lower(pc.m, s.active[pc.slot]))])
    case Reclaim(w, free) =>
      s.(blocks := map b | b in s.blocks :: if b in free then Freed else s.blocks[b],
         writers := s.writers[w := Ready])
  }

  function Step(s: State, ev: Event): State
    requires Enabled(s, ev)
  {
    if ByReader(ev) then ReaderStep(s, ev)
    else if ByWriter(ev) then WriterStep(s, ev)
    else if ev.Spawn? then s.(readers := s.readers + [Looking(0)])
    else s.(writers := s.writers + [Ready])
  }

  function Start(): State {
    State(1, seq(SLOTS, i => 0), seq(SLOTS, i => false), map[], [], [])
  }

  /** The states a run passes through, from the first to the last. */
  ghost predicate IsRun(run: seq<State>, events: seq<Event>) {
    && |run| == |events| + 1
    && run[0] == Start()
    && forall k :: 0 <= k < |events| ==> Enabled(run[k], events[k]) && run[k + 1] == Step(run[k], events[k])
  }

  // ---------------------------------------------------------------------------------------
  // The invariant
  // ---------------------------------------------------------------------------------------

  /** What a reader's position says about its slot. */
  predicate ReaderOk(s: State, r: Reader)
    requires |s.active| == |s.inUse| == SLOTS
  {
    && (!r.Gone? ==> r.slot < SLOTS)
    && (Owns(r) ==> s.inUse[r.slot])
    && (Owns(r) && !r.Reading? ==> s.active[r.slot] == 0)
    && (r.Entering? ==> 1 <= r.e <= s.epoch)
    && (r.Reading? ==> 1 <= r.e <= s.epoch && s.active[r.slot] == r.e)
  }

  /** What a block that a reader holds, entered at epoch e, can have become. */
  predicate StillThere(s: State, b: nat, e: nat) {
    b in s.blocks && !s.blocks[b].Freed? && (s.blocks[b].Limbo? ==> e < s.blocks[b].stamp)
  }

  ghost predicate SlotsOk(s: State) {
    && |s.active| == |s.inUse| == SLOTS && 1 <= s.epoch <= UINT64_MAX
    && (forall i :: 0 <= i < SLOTS && !s.inUse[i] ==> s.active[i] == 0)
    && (forall r :: 0 <= r < |s.readers| ==> ReaderOk(s, s.readers[r]))
    && (forall r, q :: 0 <= r < q < |s.readers| && Owns(s.readers[r]) && Owns(s.readers[q])
          ==> s.readers[r].slot != s.readers[q].slot)
  }

  ghost predicate BlocksOk(s: State) {
    && (forall w :: 0 <= w < |s.writers| && s.writers[w].Unlinked?
          ==> s.writers[w].block in s.blocks && s.blocks[s.writers[w].block] == Detached(w))
    && (forall w :: 0 <= w < |s.writers| && s.writers[w].Scanning? ==> s.writers[w].slot <= SLOTS)
    && (forall r, b :: 0 <= r < |s.readers| && s.readers[r].Reading? && b in s.readers[r].held
          ==> StillThere(s, b, s.readers[r].e))
  }

  /** A scan that has passed a reader's slot has come down to that reader's epoch if its writer's limbo
      holds anything the reader uses. */
  predicate Passed(s: State, w: nat, r: Reader, b: nat)
    requires w < |s.writers| && s.writers[w].Scanning? && r.Reading?
  {
    (r.slot < s.writers[w].slot && b in r.held && b in s.blocks && s.blocks[b].Limbo? && s.blocks[b].writer == w)
    ==> s.writers[w].m <= r.e
  }

  ghost predicate ScansOk(s: State) {
    forall w, r, b |
      && 0 <= w < |s.writers| && s.writers[w].Scanning?
      && 0 <= r < |s.readers| && s.readers[r].Reading? && b in s.readers[r].held
      :: Passed(s, w, s.readers[r], b)
  }

  ghost predicate Inv(s: State) {
    SlotsOk(s) && BlocksOk(s) && ScansOk(s)
  }

  /** A reader's step leaves the other readers' slots as they need them. */
  lemma ReaderKeepsReader(s: State, ev: Event, q: nat)
    requires SlotsOk(s) && Enabled(s, ev) && ByReader(ev) && q < |s.readers|
    ensures |ReaderStep(s, ev).active| == |ReaderStep(s, ev).inUse| == SLOTS
    ensures ReaderOk(ReaderStep(s, ev), ReaderStep(s, ev).readers[q])
  {
    assert ReaderOk(s, s.readers[q]) && ReaderOk(s, s.readers[ev.r]);
  }

  lemma ReaderKeepsOwners(s: State, ev: Event, t: State)
    requires SlotsOk(s) && Enabled(s, ev) && ByReader(ev) && t == ReaderStep(s, ev)
    ensures forall r, q :: 0 <= r < q < |t.readers| && Owns(t.readers[r]) && Owns(t.readers[q])
              ==> t.readers[r].slot != t.readers[q].slot
  {
    var pc := s.readers[ev.r];
    assert ReaderOk(s, pc);
    if ev.TryClaim? && !s.inUse[pc.slot] {
      forall q | 0 <= q < |s.readers| && Owns(s.readers[q]) ensures s.readers[q].slot != pc.slot {
        assert ReaderOk(s, s.readers[q]);
      }
    }
  }

  lemma ReaderKeepsSlots(s: State, ev: Event, t: State)
    requires SlotsOk(s) && Enabled(s, ev) && ByReader(ev) && t == ReaderStep(s, ev)
    ensures SlotsOk(t)
  {
    forall q | 0 <= q < |t.readers| ensures ReaderOk(t, t.readers[q]) {
      ReaderKeepsReader(s, ev, q);
    }
    ReaderKeepsOwners(s, ev, t);
    assert ReaderOk(s, s.readers[ev.r]);
  }

  lemma ReaderKeepsBlocks(s: State, ev: Event)
    requires Inv(s) && Enabled(s, ev) && ByReader(ev)
    ensures BlocksOk(ReaderStep(s, ev))
  {
  }

  lemma ReaderKeepsScans(s: State, ev: Event)
    requires Inv(s) && Enabled(s, ev) && ByReader(ev)
    ensures ScansOk(ReaderStep(s, ev))
  {
  }

  lemma WriterKeepsSlots(s: State, ev: Event)
    requires Inv(s) && Enabled(s, ev) && ByWriter(ev)
    ensures SlotsOk(WriterStep(s, ev))
  {
  }

  lemma WriterKeepsBlocks(s: State, ev: Event)
    requires Inv(s) && Enabled(s, ev) && ByWriter(ev)
    ensures BlocksOk(WriterStep(s, ev))
  {
  }

  lemma WriterKeepsScans(s: State, ev: Event)
    requires Inv(s) && Enabled(s, ev) && ByWriter(ev)
    ensures ScansOk(WriterStep(s, ev))
  {
  }

  lemma ArrivalKeepsInv(s: State, ev: Event)
    requires Inv(s) && (ev.Spawn? || ev.Join?)
    ensures Inv(Step(s, ev))
  {
  }

  lemma ReaderKeepsInv(s: State, ev: Event, t: State)
    requires Inv(s) && Enabled(s, ev) && ByReader(ev) && t == ReaderStep(s, ev)
    ensures Inv(t)
  {
    ReaderKeepsSlots(s, ev, t);
    ReaderKeepsBlocks(s, ev);
    ReaderKeepsScans(s, ev);
  }

  lemma WriterKeepsInv(s: State, ev: Event, t: State)
    requires Inv(s) && Enabled(s, ev) && ByWriter(ev) && t == WriterStep(s, ev)
    ensures Inv(t)
  {
    WriterKeepsSlots(s, ev);
    WriterKeepsBlocks(s, ev);
    WriterKeepsScans(s, ev);
  }

  lemma StepKeepsInv(s: State, ev: Event)
    requires Inv(s) && Enabled(s, ev)
    ensures Inv(Step(s, ev))
  {
    if ByReader(ev) {
      ReaderKeepsInv(s, ev, Step(s, ev));
    } else if ByWriter(ev) {
      WriterKeepsInv(s, ev, Step(s, ev));
    } else {
      ArrivalKeepsInv(s, ev);
    }
  }

  lemma {:induction false} RunKeepsInv(run: seq<State>, events: seq<Event>, k: nat)
    requires IsRun(run, events) && k < |run|
    ensures Inv(run[k])
  {
    if k > 0 {
      RunKeepsInv(run, events, k - 1);
      StepKeepsInv(run[k - 1], events[k - 1]);
    }
  }

  // ---------------------------------------------------------------------------------------
  // Safety
  // ---------------------------------------------------------------------------------------

  /** Nothing that a reader holds between its slot store and its slot clear has been freed. */
  ghost predicate NothingHeldIsFreed(s: State) {
    forall r, b :: 0 <= r < |s.readers| && s.readers[r].Reading? && b in s.readers[r].held
      ==> b in s.blocks && s.blocks[b] != Freed
  }

  /** No slot has two owners, and a reader inside its critical section shows a non-zero epoch. */
  ghost predicate SlotsExclusive(s: State) {
    && (forall r, q :: 0 <= r < q < |s.readers| && Owns(s.readers[r]) && Owns(s.readers[q])
          ==> s.readers[r].slot != s.readers[q].slot)
    && (forall r :: 0 <= r < |s.readers| && s.readers[r].Reading?
          ==> s.readers[r].slot < |s.active| && s.active[s.readers[r].slot] != 0)
  }

  /** In every run, whatever the interleaving. */
  lemma Safety(run: seq<State>, events: seq<Event>, k: nat)
    requires IsRun(run, events) && k < |run|
    ensures NothingHeldIsFreed(run[k]) && SlotsExclusive(run[k])
  {
    RunKeepsInv(run, events, k);
    var s := run[k];
    forall r | 0 <= r < |s.readers| && s.readers[r].Reading?
      ensures s.readers[r].slot < |s.active| && s.active[s.readers[r].slot] != 0
    {
      assert ReaderOk(s, s.readers[r]);
    }
  }

  // ---------------------------------------------------------------------------------------
  // Giving up
  // ---------------------------------------------------------------------------------------

  /** At some moment before the n-th the reader was there and the slot in use. */
  ghost predicate SeenInUse(run: seq<State>, n: nat, r: nat, i: nat)
    requires n <= |run|
  {
    exists j :: 0 <= j < n && r < |run[j].readers| && i < |run[j].inUse| && run[j].inUse[i]
  }

  predicate Searching(reader: Reader) {
    reader.Looking? || reader.Trying?
  }

  /** What one event does to a reader that searches. */
  lemma SearchStep(s: State, ev: Event, r: nat)
    requires Enabled(s, ev) && r < |s.readers| && Searching(s.readers[r]) && |s.inUse| == SLOTS
    ensures var before, after := s.readers[r], Step(s, ev).readers[r];
            if ByReader(ev) && ev.r == r
            then before.slot < SLOTS
                 && (s.inUse[before.slot] ==> after == NextSlot(before.slot))
                 && (!s.inUse[before.slot] ==>
                       after == if before.Looking? then Trying(before.slot) else Clearing(before.slot))
            else after == before
  {
  }

  /** A reader that searches has seen every slot in front of where it is in use. */
  lemma {:induction false} SearchedSoFar(run: seq<State>, events: seq<Event>, n: nat, r: nat)
    requires IsRun(run, events) && n < |run| && r < |run[n].readers| && Searching(run[n].readers[r])
    ensures forall i: nat :: i < run[n].readers[r].slot ==> SeenInUse(run, n, r, i)
    decreases n
  {
    if n > 0 && r < |run[n - 1].readers| && Searching(run[n - 1].readers[r]) {
      RunKeepsInv(run, events, n - 1);
      SearchStep(run[n - 1], events[n - 1], r);
      SearchedSoFar(run, events, n - 1, r);
      var before, after := run[n - 1].readers[r], run[n].readers[r];
      forall i: nat | i < after.slot ensures SeenInUse(run, n, r, i) {
        if i < before.slot {
          assert SeenInUse(run, n - 1, r, i);
        }
      }
    } else if n > 0 {
      StartsSearching(run[n - 1], events[n - 1], r);
    }
  }

  /** Searching begins with a new reader, at the first slot. */
  lemma StartsSearching(s: State, ev: Event, r: nat)
    requires Enabled(s, ev) && r < |Step(s, ev).readers| && Searching(Step(s, ev).readers[r])
    requires !(r < |s.readers| && Searching(s.readers[r]))
    ensures Step(s, ev).readers[r] == Looking(0)
  {
  }

  /** A reader ends up without a slot only after it has seen each of the 64 in use. */
  lemma GivesUpOnlyThen(run: seq<State>, events: seq<Event>, n: nat, next: nat, r: nat)
    requires IsRun(run, events) && n < |events| && r < |run[n].readers| && Searching(run[n].readers[r])
    requires next == n + 1 && run[next].readers[r] == Gone
    ensures forall i: nat :: i < SLOTS ==> SeenInUse(run, next, r, i)
  {
    RunKeepsInv(run, events, n);
    SearchStep(run[n], events[n], r);
    SearchedSoFar(run, events, n, r);
    forall i: nat | i < SLOTS ensures SeenInUse(run, next, r, i) {
      if i < run[n].readers[r].slot {
        assert SeenInUse(run, n, r, i);
      }
    }
  }

  // ---------------------------------------------------------------------------------------
  // What stays in limbo
  // ---------------------------------------------------------------------------------------

  ghost predicate InScan(s: State, w: nat) {
    w < |s.writers| && s.writers[w].Scanning?
  }

  /** At the j-th moment some slot showed this epoch, and from then to the n-th the writer's scan went on. */
  ghost predicate ShownInScan(run: seq<State>, j: nat, n: nat, w: nat, e: nat) {
    && j < n < |run| && (forall k :: j <= k <= n ==> InScan(run[k], w))
    && e in run[j].active
  }

  /** What one event does to a scan. */
  lemma ScanStep(s: State, ev: Event, w: nat)
    requires Enabled(s, ev) && InScan(Step(s, ev), w) && |s.active| == SLOTS
    ensures var m := Step(s, ev).writers[w].m;
            m == UINT64_MAX || (InScan(s, w) && (m == s.writers[w].m || (m != 0 && m in s.active)))
  {
  }

  /** The least epoch so far was in a slot at some moment of this very scan. */
  lemma {:induction false} LeastWasShown(run: seq<State>, events: seq<Event>, n: nat, w: nat)
    requires IsRun(run, events) && n < |run| && InScan(run[n], w)
    ensures var m := run[n].writers[w].m;
            m == UINT64_MAX || (m != 0 && exists j: nat :: ShownInScan(run, j, n, w, m))
    decreases n
  {
    var m := run[n].writers[w].m;
    if n > 0 && m != UINT64_MAX {
      var last := n - 1;
      RunKeepsInv(run, events, last);
      ScanStep(run[last], events[last], w);
      if m == run[last].writers[w].m {
        LeastWasShown(run, events, last, w);
        var j: nat :| ShownInScan(run, j, last, w, m);
        assert ShownInScan(run, j, n, w, m);
      } else {
        assert ShownInScan(run, last, n, w, m);
      }
    }
  }

  /** Nothing is kept without need: what a finished scan does not allow to be freed was stamped no earlier than the
      epoch that a slot showed during the scan. */
  lemma KeptOnlyForAReader(run: seq<State>, events: seq<Event>, n: nat, w: nat, b: nat)
    requires IsRun(run, events) && n < |run| && InScan(run[n], w) && run[n].writers[w].slot == SLOTS
    requires b in run[n].blocks && run[n].blocks[b].Limbo? && run[n].blocks[b].writer == w
    ensures var stamp := run[n].blocks[b].stamp;
            || Enabled(run[n], Reclaim(w, {b})) || stamp >= UINT64_MAX
            || exists e, j: nat :: 0 < e <= stamp && ShownInScan(run, j, n, w, e)
  {
    RunKeepsInv(run, events, n);
    LeastWasShown(run, events, n, w);
  }
}
