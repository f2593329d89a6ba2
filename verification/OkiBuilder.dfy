/**
  SpillingRunBuilder (src/fileops/oki_run.cpp): rows come in any order, what is buffered is sorted into a
  temporary run whenever it grows past a threshold, and at the end all runs are merged into one.
 */
module OkiBuilder {
  import opened Bytes
  import opened ByteOrder
  import opened OkiRows
  import opened OkiMerge

  ghost function Flatten(chunks: seq<seq<Row>>): seq<Row> {
    if chunks == [] then [] else Flatten(chunks[..|chunks| - 1]) + chunks[|chunks| - 1]
  }

  ghost predicate AllRepresent(runs: seq<seq<Row>>, chunks: seq<seq<Row>>) {
    |runs| == |chunks| && forall i :: 0 <= i < |runs| ==> Represents(runs[i], chunks[i])
  }

  /** Merging the runs of the pieces finds the winners of the whole, however it was cut into pieces. */
  lemma {:induction false} PiecesMerge(runs: seq<seq<Row>>, chunks: seq<seq<Row>>, k: Key)
    requires AllRepresent(runs, chunks)
    ensures Merged(runs, k) == Win(Flatten(chunks), k)
    decreases |runs|
  {
    if runs != [] {
      var n := |runs| - 1;
      PiecesMerge(runs[..n], chunks[..n], k);
      WinConcat(Flatten(chunks[..n]), chunks[n], k);
      assert Represents(runs[n], chunks[n]);
    }
  }

  lemma {:induction false} FirstKeysAgree(a: seq<Row>, b: seq<Row>)
    requires IsRun(a) && IsRun(b) && a != [] && b != []
    requires forall k :: Lookup(a, k) == Lookup(b, k)
    ensures a[0] == b[0]
  {
    LookupAt(a, 0);
    LookupAt(b, 0);
    var x, y := a[0].key, b[0].key;
    assert Lookup(b, x) == Some(a[0]) && Lookup(a, y) == Some(b[0]);
    if x != y {
      LookupFinds(b, x);
      LookupFinds(a, y);
      var i :| 0 <= i < |b| && b[i].key == x;
      var j :| 0 <= j < |a| && a[j].key == y;
      assert Less(b[0].key, b[i].key);
      Asymmetric(y, x);
    }
  }

  lemma NoneEmpty(a: seq<Row>, b: seq<Row>)
    requires forall k :: Lookup(a, k) == Lookup(b, k)
    ensures b != [] ==> a != []
  {
    if b != [] {
      assert Lookup(b, b[0].key) == Some(b[0]);
      assert Lookup(a, b[0].key).Some?;
    }
  }

  /** A run is known from what it answers. */
  lemma {:induction false} RunsAgree(a: seq<Row>, b: seq<Row>)
    requires IsRun(a) && IsRun(b) && forall k :: Lookup(a, k) == Lookup(b, k)
    ensures a == b
    decreases |a| + |b|
  {
    NoneEmpty(a, b);
    NoneEmpty(b, a);
    if a != [] {
      FirstKeysAgree(a, b);
      forall k ensures Lookup(a[1..], k) == Lookup(b[1..], k) {
        assert Lookup(a, k) == Lookup(b, k);
        if k == a[0].key {
          Irreflexive(k);
          HeadLookup(a, k);
          HeadLookup(b, k);
        }
      }
      RunsAgree(a[1..], b[1..]);
    }
  }

  const MIN_SPILL_BYTES: nat := 4096

  class SpillingRunBuilder {
    const dropTombstones: bool
    const spillBytes: nat
    const rowBytes: nat                       // sizeof(Row)
    var buf: seq<Row>
    var bufBytes: nat
    var spills: seq<seq<Row>>                 // the temporary runs
    var finished: bool
    ghost var chunks: seq<seq<Row>>           // the rows that each of them was made from

    ghost predicate Valid()
      reads this
    {
      AllRepresent(spills, chunks)
    }

    /** Every row that was added, in order of arrival. */
    ghost function Added(): seq<Row>
      reads this
    {
      Flatten(chunks) + buf
    }

    constructor (drop: bool, threshold: nat, rowSize: nat)
      ensures Valid() && Added() == [] && !finished && dropTombstones == drop
    {
      dropTombstones, rowBytes := drop, rowSize;
      spillBytes := if threshold < MIN_SPILL_BYTES then MIN_SPILL_BYTES else threshold;
      buf, bufBytes, spills, finished, chunks := [], 0, [], false, [];
    }

    method Spill()
      requires Valid()
      modifies this`buf, this`bufBytes, this`spills, this`chunks
      ensures Valid() && Added() == old(Added())
    {
      if |buf| == 0 {
        return;
      }
      var run := SortDedup(buf);
      spills := spills + [run];
      chunks := chunks + [buf];
      assert chunks[..|chunks| - 1] == old(chunks);
      buf, bufBytes := [], 0;
      assert Flatten(chunks) + [] == Flatten(chunks);
    }

    method Add(r: Row) returns (ok: bool)
      requires Valid()
      modifies this`buf, this`bufBytes, this`spills, this`chunks
      ensures Valid() && ok == !finished
      ensures Added() == old(Added()) + if ok then [r] else []
    {
      if finished {
        assert Added() + [] == Added();
        return false;
      }
      assert Flatten(chunks) + (buf + [r]) == (Flatten(chunks) + buf) + [r];
      buf := buf + [r];
      bufBytes := bufBytes + |r.key| + rowBytes;
      if bufBytes >= spillBytes {
        Spill();
      }
      return true;
    }

    /** The run of everything that was added. The threshold does not show in the contract: by RunsAgree
        there is only one such run. */
    method Finish() returns (run: Option<seq<Row>>)
      requires Valid()
      modifies this
      ensures finished && run.Some? == !old(finished)
      ensures run.Some? ==> IsRun(run.value)
                            && forall k :: Lookup(run.value, k) == Emit(Win(old(Added()), k), dropTombstones)
    {
      if finished {
        return None;
      }
      finished := true;
      var tail := SortDedup(buf);
      ghost var added, pieces := Added(), chunks + [buf];
      assert pieces[..|chunks|] == chunks;
      var runs := spills + [tail];
      forall k ensures Merged(runs, k) == Win(added, k) {
        PiecesMerge(runs, pieces, k);
      }
      var out := MergeByRank(runs, dropTombstones);
      spills, chunks, buf, bufBytes := [], [], [], 0;
      return Some(out);
    }
  }
}
