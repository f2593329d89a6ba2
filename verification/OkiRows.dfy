/**
  Rows of the ordered key index (include/bitcask/oki_state.hpp, include/bitcask/oki_run.hpp) and the one
  rule for who wins: the greatest ord, and among equal ords the last to arrive. How winning is computed
  from parts: runs of one row per key, merged or searched from the newest.
 */
module OkiRows {
  import opened Bytes
  import opened ByteOrder

  type Key = seq<byte>

  datatype Loc = Loc(fileId: uint32, totalSz: uint32, offset: uint64)

  /** A live row says where its record is, a tombstone does not have to. */
  datatype Row = Row(key: Key, ord: nat, tomb: bool, loc: Option<Loc>)

  /** The later of two candidates wins unless its ord is smaller. */
  function Combine(a: Option<Row>, b: Option<Row>): Option<Row> {
    if b == None then a
    else if a == None || a.value.ord <= b.value.ord then b
    else a
  }

  lemma CombineAssociative(a: Option<Row>, b: Option<Row>, c: Option<Row>)
    ensures Combine(Combine(a, b), c) == Combine(a, Combine(b, c))
  {
  }

  /** One row as a candidate for a key. */
  function Candidate(r: Row, k: Key): Option<Row> {
    if r.key == k then Some(r) else None
  }

  /** The row of key k that wins among rows in order of arrival. */
  function Win(rows: seq<Row>, k: Key): (w: Option<Row>)
    ensures w.Some? ==> w.value in rows && w.value.key == k
    decreases |rows|
  {
    if rows == [] then None
    else Combine(Win(rows[..|rows| - 1], k), Candidate(rows[|rows| - 1], k))
  }

  lemma WinSnoc(rows: seq<Row>, r: Row, k: Key)
    ensures Win(rows + [r], k) == Combine(Win(rows, k), Candidate(r, k))
  {
    assert (rows + [r])[..|rows|] == rows;
  }

  /** Winning can be worked out on parts. */
  lemma {:induction false} WinConcat(a: seq<Row>, b: seq<Row>, k: Key)
    ensures Win(a + b, k) == Combine(Win(a, k), Win(b, k))
    decreases |b|
  {
    if b == [] {
      assert a + b == a;
    } else {
      var n := |b| - 1;
      assert a + b == (a + b[..n]) + [b[n]];
      WinSnoc(a + b[..n], b[n], k);
      WinConcat(a, b[..n], k);
      CombineAssociative(Win(a, k), Win(b[..n], k), Candidate(b[n], k));
    }
  }

  predicate HasKey(rows: seq<Row>, k: Key) {
    exists i :: 0 <= i < |rows| && rows[i].key == k
  }

  /** Row i beats row j for their common key. */
  predicate Beats(rows: seq<Row>, i: nat, j: nat)
    requires i < |rows| && j < |rows|
  {
    rows[j].ord < rows[i].ord || (rows[j].ord == rows[i].ord && j <= i)
  }

  /** What Win is, said without recursion. */
  lemma {:induction false} WinIs(rows: seq<Row>, k: Key) returns (i: nat)
    ensures Win(rows, k).Some? <==> HasKey(rows, k)
    ensures HasKey(rows, k) ==>
              i < |rows| && rows[i].key == k && Win(rows, k) == Some(rows[i])
              && forall j :: 0 <= j < |rows| && rows[j].key == k ==> Beats(rows, i, j)
    decreases |rows|
  {
    i := 0;
    if rows != [] {
      var n := |rows| - 1;
      var before := rows[..n];
      var m := WinIs(before, k);
      assert HasKey(before, k) || rows[n].key == k <==> HasKey(rows, k) by {
        if HasKey(before, k) {
          assert rows[m].key == k;
        }
      }
      if rows[n].key == k && (!HasKey(before, k) || before[m].ord <= rows[n].ord) {
        i := n;
      } else {
        i := m;
      }
      forall j | HasKey(rows, k) && 0 <= j < |rows| && rows[j].key == k ensures Beats(rows, i, j) {
        if j < n {
          assert before[j].key == k && Beats(before, m, j);
        }
      }
    }
  }

  /** A row that beats all others of its key is the winner. */
  lemma BestWins(rows: seq<Row>, i: nat)
    requires i < |rows|
    requires forall j :: 0 <= j < |rows| && rows[j].key == rows[i].key ==> Beats(rows, i, j)
    ensures Win(rows, rows[i].key) == Some(rows[i])
  {
    var m := WinIs(rows, rows[i].key);
    assert HasKey(rows, rows[i].key);
    assert Beats(rows, i, m) && Beats(rows, m, i);
  }

  // ---------------------------------------------------------------------------------------
  // Runs
  // ---------------------------------------------------------------------------------------

  /** A run has its keys in ascending order, each once. */
  ghost predicate IsRun(rows: seq<Row>) {
    forall i, j :: 0 <= i < j < |rows| ==> Less(rows[i].key, rows[j].key)
  }

  function Lookup(rows: seq<Row>, k: Key): (r: Option<Row>)
    ensures r.Some? ==> r.value.key == k && r.value in rows
  {
    if rows == [] then None else if rows[0].key == k then Some(rows[0]) else Lookup(rows[1..], k)
  }

  lemma {:induction false} LookupFinds(rows: seq<Row>, k: Key)
    ensures Lookup(rows, k).Some? <==> HasKey(rows, k)
  {
    if rows != [] {
      LookupFinds(rows[1..], k);
      if HasKey(rows, k) && rows[0].key != k {
        var i :| 0 <= i < |rows| && rows[i].key == k;
        assert rows[1..][i - 1].key == k;
      }
      if HasKey(rows[1..], k) {
        var i :| 0 <= i < |rows[1..]| && rows[1..][i].key == k;
        assert rows[i + 1].key == k;
      }
    }
  }

  lemma {:induction false} LookupSnoc(rows: seq<Row>, r: Row, k: Key)
    ensures Lookup(rows + [r], k) == if Lookup(rows, k).Some? then Lookup(rows, k) else Candidate(r, k)
  {
    if rows != [] {
      LookupSnoc(rows[1..], r, k);
      assert (rows + [r])[1..] == rows[1..] + [r];
    }
  }

  /** The row of a key in a run, by position. */
  lemma LookupAt(rows: seq<Row>, i: nat)
    requires IsRun(rows) && i < |rows|
    ensures Lookup(rows, rows[i].key) == Some(rows[i])
  {
    LookupFinds(rows, rows[i].key);
    assert HasKey(rows, rows[i].key);
    var r := Lookup(rows, rows[i].key).value;
    var j :| 0 <= j < |rows| && rows[j] == r;
    if j < i {
      Asymmetric(rows[j].key, rows[i].key);
    } else if i < j {
      Asymmetric(rows[i].key, rows[j].key);
    }
  }

  /** The winner over runs in ascending order of gen: the greatest ord, and the newest among equals. */
  function Merged(runs: seq<seq<Row>>, k: Key): Option<Row>
    decreases |runs|
  {
    if runs == [] then None else Combine(Merged(runs[..|runs| - 1], k), Lookup(runs[|runs| - 1], k))
  }

  /** The first hit when searching from the newest run. */
  function FirstHit(runs: seq<seq<Row>>, k: Key): Option<Row>
    decreases |runs|
  {
    if runs == [] then None
    else
      var r := Lookup(runs[|runs| - 1], k);
      if r.Some? then r else FirstHit(runs[..|runs| - 1], k)
  }

  /** When the newest row of a key has no smaller ord than any older one, both give the same row. */
  lemma {:induction false} FirstHitIsMerged(runs: seq<seq<Row>>, k: Key)
    requires FirstHit(runs, k).Some? ==> OrdsUpTo(runs, k, FirstHit(runs, k).value.ord)
    ensures FirstHit(runs, k) == Merged(runs, k)
    decreases |runs|
  {
    if runs != [] {
      var n := |runs| - 1;
      var before := runs[..n];
      if Lookup(runs[n], k).Some? {
        assert OrdsUpTo(before, k, Lookup(runs[n], k).value.ord) by {
          forall i | 0 <= i < |before| && Lookup(before[i], k).Some?
            ensures Lookup(before[i], k).value.ord <= Lookup(runs[n], k).value.ord
          {
            assert before[i] == runs[i];
          }
        }
        MergedUpTo(before, k, Lookup(runs[n], k).value.ord);
      } else {
        if FirstHit(before, k).Some? {
          assert OrdsUpTo(before, k, FirstHit(before, k).value.ord) by {
            forall i | 0 <= i < |before| && Lookup(before[i], k).Some?
              ensures Lookup(before[i], k).value.ord <= FirstHit(before, k).value.ord
            {
              assert before[i] == runs[i];
            }
          }
        }
        FirstHitIsMerged(before, k);
      }
    }
  }

  /** No run has a row of key k above this ord. */
  ghost predicate OrdsUpTo(runs: seq<seq<Row>>, k: Key, ord: nat) {
    forall i :: 0 <= i < |runs| && Lookup(runs[i], k).Some? ==> Lookup(runs[i], k).value.ord <= ord
  }

  lemma {:induction false} MergedUpTo(runs: seq<seq<Row>>, k: Key, ord: nat)
    requires OrdsUpTo(runs, k, ord)
    ensures Merged(runs, k).Some? ==> Merged(runs, k).value.ord <= ord
    decreases |runs|
  {
    if runs != [] {
      var n := |runs| - 1;
      var before := runs[..n];
      assert OrdsUpTo(before, k, ord) by {
        forall i | 0 <= i < |before| && Lookup(before[i], k).Some? ensures Lookup(before[i], k).value.ord <= ord {
          assert before[i] == runs[i];
        }
      }
      MergedUpTo(before, k, ord);
      assert Lookup(runs[n], k).Some? ==> Lookup(runs[n], k).value.ord <= ord;
    }
  }
}
