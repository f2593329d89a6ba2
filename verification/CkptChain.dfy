/**
  The chain of delta files behind a checkpoint (include/bitcask/ckpt_chain.hpp): walking it, with or without a
  committed length, and removing it.
 */
module CkptChains {
  import opened Bytes
  import opened LittleEndian

  const DELTA_INFO: uint16 := 9
  const GIVE_UP: nat := 8

  /** What a section carries: bytes, or rows of a kind whose encoding is not part of this model. */
  datatype Payload<+E> = Raw(bytes: seq<byte>) | Rows(rows: seq<E>)

  datatype Section<+E> = Section(kind: uint16, crcOk: bool, payload: Payload<E>)

  datatype Checkpoint<+E> = Checkpoint(watermark: nat, sections: seq<Section<E>>)

  /** The files of a chain by number; None is a file that exists and cannot be read. */
  type Files<+E> = map<nat, Option<Checkpoint<E>>>

  /** How far a chain was followed, and what has been applied. */
  datatype Reached<+S> = Reached(coverage: nat, state: S)

  datatype ChainWalk = ChainWalk(coverage: nat, nextSeq: nat, ok: bool)

  function InfoOf<E>(sections: seq<Section<E>>): Option<Section<E>> {
    if sections == [] then None
    else if sections[0].kind == DELTA_INFO then Some(sections[0])
    else InfoOf(sections[1..])
  }

  function InfoBytes(gen: uint64, prev: uint64, s: uint32): (b: seq<byte>)
    ensures |b| == 20
  {
    Put64(gen) + Put64(prev) + Put32(s)
  }

  /** The file continues this chain at this point. */
  predicate Links<E>(c: Checkpoint<E>, gen: nat, prev: nat, s: nat) {
    var info := InfoOf(c.sections);
    && info.Some? && info.value.crcOk && info.value.payload.Raw?
    && |info.value.payload.bytes| == 20
    && Get64(info.value.payload.bytes, 0) == gen
    && Get64(info.value.payload.bytes, 8) == prev
    && Get32(info.value.payload.bytes, 16) == s
  }

  /** File s is there, can be read, continues the chain and can be applied. */
  function Extend<E, S>(files: Files<E>, gen: nat, r: Reached<S>, apply: (S, Checkpoint<E>) -> Option<S>,
                        s: nat): Option<Reached<S>> {
    if s in files && files[s].Some? && Links(files[s].value, gen, r.coverage, s) && apply(r.state, files[s].value).Some?
    then Some(Reached(files[s].value.watermark, apply(r.state, files[s].value).value))
    else None
  }

  /** After files 1 to n, each linked to the one before. */
  function After<E, S>(files: Files<E>, gen: nat, start: Reached<S>, apply: (S, Checkpoint<E>) -> Option<S>,
                       n: nat): Option<Reached<S>> {
    if n == 0 then Some(start) else OneMore(files, gen, After(files, gen, start, apply, n - 1), apply, n)
  }

  function OneMore<E, S>(files: Files<E>, gen: nat, r: Option<Reached<S>>, apply: (S, Checkpoint<E>) -> Option<S>,
                         s: nat): Option<Reached<S>> {
    if r == None then None else Extend(files, gen, r.value, apply, s)
  }

  method FindInfo<E>(sections: seq<Section<E>>) returns (info: Option<Section<E>>)
    ensures info == InfoOf(sections)
  {
    assert sections[0..] == sections;
    for i := 0 to |sections|
      invariant InfoOf(sections) == InfoOf(sections[i..])
    {
      if sections[i].kind == DELTA_INFO {
        return Some(sections[i]);
      }
      assert sections[i..][1..] == sections[i + 1..];
    }
    return None;
  }

  /** Whether a file links, as the walk finds out. */
  method CheckLink<E>(c: Checkpoint<E>, gen: nat, prev: nat, s: nat) returns (ok: bool)
    ensures ok == Links(c, gen, prev, s)
  {
    var info := FindInfo(c.sections);
    if info == None || !info.value.crcOk || !info.value.payload.Raw? || |info.value.payload.bytes| != 20 {
      return false;
    }
    var q := info.value.payload.bytes;
    return Get64(q, 0) == gen && Get64(q, 8) == prev && Get32(q, 16) == s;
  }

  /** What a walk does with one file; None is the chain's end or a break in it. */
  method Visit<E, S>(files: Files<E>, gen: nat, r: Reached<S>, apply: (S, Checkpoint<E>) -> Option<S>, s: nat)
      returns (next: Option<Reached<S>>)
    requires s in files
    ensures next == Extend(files, gen, r, apply, s)
  {
    var dc := files[s];
    if dc == None {
      return None;
    }
    var linked := CheckLink(dc.value, gen, r.coverage, s);
    if !linked {
      return None;
    }
    var state := apply(r.state, dc.value);
    return if state == None then None else Some(Reached(dc.value.watermark, state.value));
  }

  /** Follows the chain as far as it is linked. With a committed length the walk stops there and is good if it gets
      there; without one it is good if the first missing file ends it. */
  method WalkChain<E, S(==)>(files: Files<E>, gen: nat, start: Reached<S>, chainSeq: nat, unbounded: bool,
                               apply: (S, Checkpoint<E>) -> Option<S>)
      returns (w: ChainWalk, state: S)
    ensures w.nextSeq >= 1 && After(files, gen, start, apply, w.nextSeq - 1) == Some(Reached(w.coverage, state))
    ensures !unbounded ==> w.nextSeq <= chainSeq + 1 && (w.ok <==> w.nextSeq == chainSeq + 1)
    ensures unbounded ==> (w.ok <==> w.nextSeq !in files)
    ensures !w.ok || unbounded ==> After(files, gen, start, apply, w.nextSeq) == None
  {
    var r, s: nat := start, 1;
    ghost var top := Top(files.Keys);
    while unbounded || s <= chainSeq
      invariant 1 <= s <= top + 1 && (!unbounded ==> s <= chainSeq + 1)
      invariant After(files, gen, start, apply, s - 1) == Some(r)
      decreases top + 1 - s
    {
      if s !in files {
        return ChainWalk(r.coverage, s, unbounded), r.state;
      }
      var next := Visit(files, gen, r, apply, s);
      if next == None {
        return ChainWalk(r.coverage, s, false), r.state;
      }
      r, s := next.value, s + 1;
    }
    return ChainWalk(r.coverage, s, true), r.state;
  }

  /** A linked stretch has linked beginnings, so the contract of the walk fixes where it ends. */
  lemma {:induction false} LinkedBefore<E, S>(files: Files<E>, gen: nat, start: Reached<S>,
                                              apply: (S, Checkpoint<E>) -> Option<S>,
                                              m: nat, n: nat)
    requires m <= n && After(files, gen, start, apply, n).Some?
    ensures After(files, gen, start, apply, m).Some?
    decreases n
  {
    if m < n {
      LinkedBefore(files, gen, start, apply, m, n - 1);
    }
  }

  /** A walk with a committed length does not depend on any file beyond that length. */
  lemma {:induction false} OrphansDoNotMatter<E, S>(files: Files<E>, files': Files<E>, gen: nat, start: Reached<S>,
                                                     apply: (S, Checkpoint<E>) -> Option<S>, chainSeq: nat, n: nat)
    requires forall s :: 1 <= s <= chainSeq ==> (s in files <==> s in files') && (s in files ==> files[s] == files'[s])
    requires n <= chainSeq
    ensures After(files, gen, start, apply, n) == After(files', gen, start, apply, n)
    decreases n
  {
    if n > 0 {
      OrphansDoNotMatter(files, files', gen, start, apply, chainSeq, n - 1);
    }
  }

  /** The three numbers are read as they were written. */
  lemma InfoReadsBack(gen: uint64, prev: uint64, s: uint32)
    ensures var b := InfoBytes(gen, prev, s); Get64(b, 0) == gen && Get64(b, 8) == prev && Get32(b, 16) == s
  {
    var b := InfoBytes(gen, prev, s);
    assert b[0..8] == Put64(gen) && b[8..16] == Put64(prev) && b[16..20] == Put32(s);
    GetPut64(gen, b, 0);
    GetPut64(prev, b, 8);
    GetPut32(s, b, 16);
  }

  lemma InfoCut(b: seq<byte>)
    requires |b| == 20
    ensures b == b[0..8] + b[8..16] + b[16..20]
  {
  }

  /** A file continues a chain exactly if its first section of that kind is sound and holds what writing these three
      numbers gives. */
  lemma LinksExactly<E>(c: Checkpoint<E>, gen: uint64, prev: uint64, s: uint32)
    ensures Links(c, gen, prev, s)
       <==> InfoOf(c.sections).Some? && InfoOf(c.sections).value.crcOk
            && InfoOf(c.sections).value.payload == Raw(InfoBytes(gen, prev, s))
  {
    InfoReadsBack(gen, prev, s);
    if Links(c, gen, prev, s) {
      var b := InfoOf(c.sections).value.payload.bytes;
      PutGet(b[0..8]);
      PutGet(b[8..16]);
      PutGet(b[16..20]);
      InfoCut(b);
    }
  }

  /** The first section of the kind, said without recursion. */
  lemma {:induction false} InfoIsFirst<E>(sections: seq<Section<E>>)
    ensures match InfoOf(sections)
            case None => forall i :: 0 <= i < |sections| ==> sections[i].kind != DELTA_INFO
            case Some(info) => exists i :: 0 <= i < |sections| && sections[i] == info && info.kind == DELTA_INFO
                                           && forall j :: 0 <= j < i ==> sections[j].kind != DELTA_INFO
  {
    if sections != [] && sections[0].kind != DELTA_INFO {
      InfoIsFirst(sections[1..]);
      if InfoOf(sections).Some? {
        var i :| 0 <= i < |sections[1..]| && sections[1..][i] == InfoOf(sections).value
                 && forall j :: 0 <= j < i ==> sections[1..][j].kind != DELTA_INFO;
        assert sections[i + 1] == InfoOf(sections).value;
        forall j | 0 <= j < i + 1 ensures sections[j].kind != DELTA_INFO {
          assert j > 0 ==> sections[1..][j - 1] == sections[j];
        }
      } else {
        forall i | 0 <= i < |sections| ensures sections[i].kind != DELTA_INFO {
          assert i > 0 ==> sections[1..][i - 1] == sections[i];
        }
      }
    }
  }

  // ---------------------------------------------------------------------------------------
  // Removing a chain
  // ---------------------------------------------------------------------------------------

  ghost predicate AnyOf<E>(files: Files<E>, lo: int, hi: int) {
    exists i: nat :: lo < i <= hi && i in files
  }

  /** One of the last eight numbers up to e is there. */
  ghost predicate AnyOfEight<E>(files: Files<E>, e: nat) {
    AnyOf(files, e - GIVE_UP, e)
  }

  ghost function Without<E>(files: Files<E>, stop: nat): Files<E> {
    map s | s in files && !(1 <= s <= stop) :: files[s]
  }

  class ChainFiles<E> {
    var files: Files<E>

    constructor (initial: Files<E>)
      ensures files == initial
    {
      files := initial;
    }

    method Remove(i: nat) returns (there: bool)
      modifies this
      ensures there == (i in old(files)) && files == old(files) - {i}
    {
      there := i in files;
      files := files - {i};
    }

    /** Removes 1, 2, ... up to the first eight numbers in a row that are not there. */
    method RemoveChainFiles() returns (stop: nat)
      modifies this
      ensures files == Without(old(files), stop)
      ensures stop >= GIVE_UP && !AnyOfEight(old(files), stop)
      ensures forall e :: GIVE_UP <= e < stop ==> AnyOfEight(old(files), e)
    {
      ghost var before := files;
      ghost var top: nat := Top(before.Keys);
      var misses, i: nat := 0, 1;
      while misses < GIVE_UP
        invariant misses <= GIVE_UP && misses < i
        invariant files == Without(before, i - 1)
        invariant !AnyOf(before, i - 1 - misses, i - 1)
        invariant misses < i - 1 ==> i - 1 - misses in before
        invariant forall e :: GIVE_UP <= e < (if misses == GIVE_UP then i - 1 else i) ==> AnyOfEight(before, e)
        decreases (if i <= top then top + 1 - i else 0), GIVE_UP - misses
      {
        Step(before, i, misses);
        var there := Remove(i);
        misses := if there then 0 else misses + 1;
        i := i + 1;
      }
      return i - 1;
    }
  }

  /** The window that ends at i holds a file, unless eight are missing now. */
  lemma Step<E>(files: Files<E>, i: nat, misses: nat)
    requires misses < GIVE_UP && misses < i && !AnyOf(files, i - 1 - misses, i - 1)
    requires misses < i - 1 ==> i - 1 - misses in files
    ensures i in files ==> AnyOfEight(files, i)
    ensures i !in files ==> !AnyOf(files, i - 1 - misses, i)
    ensures i !in files && misses + 1 < GIVE_UP && i >= GIVE_UP ==> AnyOfEight(files, i)
  {
    if misses < i - 1 && misses + 1 < GIVE_UP {
      var last: nat := i - 1 - misses;
      assert i - GIVE_UP < last <= i && last in files;
    }
  }

  ghost function Top(s: set<nat>): (m: nat)
    ensures forall y :: y in s ==> y <= m
  {
    if s == {} then 0
    else
      var x :| x in s;
      var m := Top(s - {x});
      assert forall y :: y in s ==> y == x || y in s - {x};
      if x > m then x else m
  }
}
