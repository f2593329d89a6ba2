/**
  Making runs (src/fileops/oki_state.cpp, src/fileops/oki_run.cpp): sort and keep the winner of every key,
  merge runs by their smallest head, and the builder that spills what does not fit in memory. Whatever
  the way, the result holds for every key the winner of all rows that went in.
 */
module OkiMerge {
  import opened Bytes
  import opened ByteOrder
  import opened OkiRows

  // ---------------------------------------------------------------------------------------
  // Sort and keep the last of every key
  // ---------------------------------------------------------------------------------------

  /** A row and its place in the order of arrival. */
  datatype Tagged = Tagged(row: Row, at: nat)

  predicate Before(a: Tagged, b: Tagged) {
    if a.row.key != b.row.key then Less(a.row.key, b.row.key)
    else a.row.ord < b.row.ord || (a.row.ord == b.row.ord && a.at < b.at)
  }

  lemma BeforeTransitive(a: Tagged, b: Tagged, c: Tagged)
    requires Before(a, b) && Before(b, c)
    ensures Before(a, c)
  {
    if a.row.key != b.row.key && b.row.key != c.row.key {
      Transitive(a.row.key, b.row.key, c.row.key);
      Asymmetric(a.row.key, c.row.key);
    }
  }

  lemma BeforeTotal(a: Tagged, b: Tagged)
    requires a.at != b.at
    ensures Before(a, b) || Before(b, a)
  {
    if a.row.key != b.row.key {
      Total(a.row.key, b.row.key);
    }
  }

  ghost predicate SortedBefore(s: seq<Tagged>) {
    forall i, j :: 0 <= i < j < |s| ==> Before(s[i], s[j])
  }

  /** s holds every row of rows with its position, and nothing else. */
  ghost predicate TagsOf(s: seq<Tagged>, rows: seq<Row>) {
    && (forall i :: 0 <= i < |rows| ==> Tagged(rows[i], i) in s)
    && (forall t :: t in s ==> t.at < |rows| && rows[t.at] == t.row)
  }

  lemma InsertSorted(s: seq<Tagged>, t: Tagged, j: nat)
    requires SortedBefore(s) && j <= |s| && forall u :: u in s ==> u.at < t.at
    requires (forall i :: 0 <= i < j ==> Before(s[i], t)) && (j < |s| ==> !Before(s[j], t))
    ensures SortedBefore(s[..j] + [t] + s[j..])
  {
    forall i | j <= i < |s| ensures Before(t, s[i]) {
      assert s[j] in s;
      BeforeTotal(s[j], t);
      if j < i {
        BeforeTransitive(t, s[j], s[i]);
      }
    }
  }

  method Insert(s: seq<Tagged>, t: Tagged) returns (r: seq<Tagged>)
    requires SortedBefore(s) && forall u :: u in s ==> u.at < t.at
    ensures SortedBefore(r) && forall u :: u in r <==> u in s || u == t
  {
    var j := 0;
    while j < |s| && Before(s[j], t)
      invariant 0 <= j <= |s| && forall i :: 0 <= i < j ==> Before(s[i], t)
    {
      j := j + 1;
    }
    InsertSorted(s, t, j);
    r := s[..j] + [t] + s[j..];
    assert s == s[..j] + s[j..];
  }

  /** std::stable_sort by key and ord, which is a sort by key, ord and arrival. */
  method Sort(rows: seq<Row>) returns (s: seq<Tagged>)
    ensures SortedBefore(s) && TagsOf(s, rows)
  {
    s := [];
    for i := 0 to |rows|
      invariant SortedBefore(s) && TagsOf(s, rows[..i])
    {
      s := Insert(s, Tagged(rows[i], i));
      forall t | t in s ensures t.at < |rows[..i + 1]| && rows[..i + 1][t.at] == t.row {
      }
    }
    assert rows[..|rows|] == rows;
  }

  /** The last of its key in sorted order is the winner of its key. */
  lemma LastWins(rows: seq<Row>, s: seq<Tagged>, j: nat)
    requires SortedBefore(s) && TagsOf(s, rows) && j < |s|
    requires j + 1 < |s| ==> s[j + 1].row.key != s[j].row.key
    ensures Win(rows, s[j].row.key) == Some(s[j].row)
  {
    var m := s[j].at;
    assert s[j] in s;
    forall i | 0 <= i < |rows| && rows[i].key == rows[m].key ensures Beats(rows, m, i) {
      assert Tagged(rows[i], i) in s;
      var p :| 0 <= p < |s| && s[p] == Tagged(rows[i], i);
      if p > j {
        assert Before(s[j], s[j + 1]);
        if p > j + 1 {
          assert Before(s[j + 1], s[p]);
          Asymmetric(s[j].row.key, s[j + 1].row.key);
        }
      }
    }
    BestWins(rows, m);
  }

  /** The run made of the first i sorted rows. */
  ghost predicate Kept(s: seq<Tagged>, rows: seq<Row>, run: seq<Row>, i: nat)
    requires i <= |s|
  {
    && IsRun(run)
    && (forall r :: r in run ==> Win(rows, r.key) == Some(r))
    && (i < |s| ==> forall j :: 0 <= j < |run| ==> Less(run[j].key, s[i].row.key))
    && (forall j :: 0 <= j < i ==> HasKey(run, s[j].row.key) || (i < |s| && s[j].row.key == s[i].row.key))
  }

  lemma StillHasKey(run: seq<Row>, r: Row, k: Key)
    requires HasKey(run, k) || r.key == k
    ensures HasKey(run + [r], k)
  {
    if HasKey(run, k) {
      var q :| 0 <= q < |run| && run[q].key == k;
      assert (run + [r])[q].key == k;
    } else {
      assert (run + [r])[|run|].key == k;
    }
  }

  lemma KeepOne(s: seq<Tagged>, rows: seq<Row>, run: seq<Row>, i: nat)
    requires SortedBefore(s) && TagsOf(s, rows) && i < |s| && Kept(s, rows, run, i)
    requires i + 1 < |s| ==> s[i + 1].row.key != s[i].row.key
    ensures Kept(s, rows, run + [s[i].row], i + 1)
  {
    LastWins(rows, s, i);
    var next := run + [s[i].row];
    forall j | 0 <= j < i + 1 ensures HasKey(next, s[j].row.key) {
      StillHasKey(run, s[i].row, s[j].row.key);
    }
    if i + 1 < |s| {
      assert Before(s[i], s[i + 1]);
      forall j | 0 <= j < |next| ensures Less(next[j].key, s[i + 1].row.key) {
        if j < |run| {
          Transitive(run[j].key, s[i].row.key, s[i + 1].row.key);
        }
      }
    }
  }

  /** Of neighbours with one key the last stays. */
  method KeepLast(s: seq<Tagged>, ghost rows: seq<Row>) returns (run: seq<Row>)
    requires SortedBefore(s) && TagsOf(s, rows)
    ensures Kept(s, rows, run, |s|)
  {
    run := [];
    for i := 0 to |s|
      invariant Kept(s, rows, run, i)
    {
      if i + 1 < |s| && s[i + 1].row.key == s[i].row.key {
        continue;
      }
      KeepOne(s, rows, run, i);
      run := run + [s[i].row];
    }
  }

  lemma AllKept(s: seq<Tagged>, rows: seq<Row>, run: seq<Row>)
    requires TagsOf(s, rows) && Kept(s, rows, run, |s|)
    ensures forall i :: 0 <= i < |rows| ==> HasKey(run, rows[i].key)
  {
    forall i | 0 <= i < |rows| ensures HasKey(run, rows[i].key) {
      assert Tagged(rows[i], i) in s;
    }
  }

  /** A run that holds for every key the winner of the rows. */
  ghost predicate Represents(run: seq<Row>, rows: seq<Row>) {
    IsRun(run) && forall k :: Lookup(run, k) == Win(rows, k)
  }

  lemma WinnersRepresent(run: seq<Row>, rows: seq<Row>)
    requires IsRun(run) && forall r :: r in run ==> Win(rows, r.key) == Some(r)
    requires forall i :: 0 <= i < |rows| ==> HasKey(run, rows[i].key)
    ensures Represents(run, rows)
  {
    forall k ensures Lookup(run, k) == Win(rows, k) {
      LookupFinds(run, k);
      var i := WinIs(rows, k);
      if Win(rows, k).Some? {
        assert rows[i].key == k;
        assert HasKey(run, k);
      }
    }
  }

  /** sort_dedup, and the same two steps of a flush. */
  method SortDedup(rows: seq<Row>) returns (run: seq<Row>)
    ensures Represents(run, rows)
  {
    var s := Sort(rows);
    run := KeepLast(s, rows);
    AllKept(s, rows, run);
    WinnersRepresent(run, rows);
  }

  // ---------------------------------------------------------------------------------------
  // Merging runs
  // ---------------------------------------------------------------------------------------

  /** A winning tombstone is left out when tombstones are dropped. */
  function Emit(w: Option<Row>, drop: bool): Option<Row> {
    if w.Some? && w.value.tomb && drop then None else w
  }

  ghost predicate AllRuns(runs: seq<seq<Row>>) {
    forall i :: 0 <= i < |runs| ==> IsRun(runs[i])
  }

  /** In a run whose head is not before m, a row with key m can only be the head. */
  lemma HeadLookup(run: seq<Row>, m: Key)
    requires IsRun(run) && (run != [] ==> !Less(run[0].key, m))
    ensures Lookup(run, m) == if run != [] && run[0].key == m then Some(run[0]) else None
    ensures run != [] && run[0].key == m ==> Lookup(run[1..], m) == None
  {
    if run != [] {
      LookupFinds(run[1..], m);
      forall i | 0 <= i < |run[1..]| ensures run[1..][i].key != m {
        assert Less(run[0].key, run[i + 1].key);
      }
    }
  }

  /** The smallest key among the heads. */
  method MinKey(rests: seq<seq<Row>>) returns (m: Option<Key>)
    requires AllRuns(rests)
    ensures m == None <==> forall i :: 0 <= i < |rests| ==> rests[i] == []
    ensures m.Some? ==> exists i :: 0 <= i < |rests| && rests[i] != [] && rests[i][0].key == m.value
    ensures m.Some? ==> forall i :: 0 <= i < |rests| && rests[i] != [] ==> !Less(rests[i][0].key, m.value)
  {
    m := None;
    for i := 0 to |rests|
      invariant m == None <==> forall j :: 0 <= j < i ==> rests[j] == []
      invariant m.Some? ==> exists j :: 0 <= j < i && rests[j] != [] && rests[j][0].key == m.value
      invariant m.Some? ==> forall j :: 0 <= j < i && rests[j] != [] ==> !Less(rests[j][0].key, m.value)
    {
      if rests[i] != [] {
        var k := rests[i][0].key;
        Irreflexive(k);
        if m == None || Less(k, m.value) {
          forall j | 0 <= j < i && rests[j] != [] ensures !Less(rests[j][0].key, k) {
            if Less(rests[j][0].key, k) {
              Transitive(rests[j][0].key, k, m.value);
            }
          }
          m := Some(k);
        }
      }
    }
  }

  /** What one turn of a merge leaves of every run: those with key m at their head lose it. */
  ghost predicate Taken(rests: seq<seq<Row>>, next: seq<seq<Row>>, m: Key) {
    && |next| == |rests|
    && forall i :: 0 <= i < |rests| ==>
         next[i] == if rests[i] != [] && rests[i][0].key == m then rests[i][1..] else rests[i]
  }

  function Head(run: seq<Row>, m: Key): Option<Row> {
    if run != [] && run[0].key == m then Some(run[0]) else None
  }

  lemma MergedNext(rests: seq<seq<Row>>, m: Key, i: nat)
    requires i < |rests| && IsRun(rests[i]) && (rests[i] != [] ==> !Less(rests[i][0].key, m))
    ensures Merged(rests[..i + 1], m) == Combine(Merged(rests[..i], m), Head(rests[i], m))
  {
    assert rests[..i + 1][..i] == rests[..i];
    HeadLookup(rests[i], m);
  }

  lemma TakenNext(rests: seq<seq<Row>>, next: seq<seq<Row>>, m: Key, i: nat, rest: seq<Row>)
    requires i < |rests| && Taken(rests[..i], next, m)
    requires rest == if Head(rests[i], m).Some? then rests[i][1..] else rests[i]
    ensures Taken(rests[..i + 1], next + [rest], m)
  {
  }

  /** compact_all: heads in order of gen, a head not older in ord than the winner so far replaces it. */
  method PickByGen(rests: seq<seq<Row>>, m: Key) returns (win: Option<Row>, next: seq<seq<Row>>)
    requires AllRuns(rests) && forall i :: 0 <= i < |rests| && rests[i] != [] ==> !Less(rests[i][0].key, m)
    ensures win == Merged(rests, m) && Taken(rests, next, m)
  {
    win, next := None, [];
    for i := 0 to |rests|
      invariant win == Merged(rests[..i], m) && Taken(rests[..i], next, m)
    {
      MergedNext(rests, m, i);
      var h := Head(rests[i], m);
      var rest := rests[i];
      if h.Some? {
        if win == None || h.value.ord >= win.value.ord {
          win := h;
        }
        rest := rest[1..];
      }
      TakenNext(rests, next, m, i, rest);
      next := next + [rest];
    }
    assert rests[..|rests|] == rests;
  }

  /** SpillingRunBuilder: among the heads with the key, the greatest (ord, rank). */
  method PickByRank(rests: seq<seq<Row>>, m: Key) returns (win: Option<Row>, next: seq<seq<Row>>)
    requires AllRuns(rests) && forall i :: 0 <= i < |rests| && rests[i] != [] ==> !Less(rests[i][0].key, m)
    ensures win == Merged(rests, m) && Taken(rests, next, m)
  {
    win := None;
    var winRank := 0;
    for i := 0 to |rests|
      invariant win == Merged(rests[..i], m) && (win.Some? ==> winRank < i)
    {
      MergedNext(rests, m, i);
      var h := Head(rests[i], m);
      if h.Some? {
        if win == None || h.value.ord > win.value.ord || (h.value.ord == win.value.ord && i > winRank) {
          win := h;
          winRank := i;
        }
      }
    }
    assert rests[..|rests|] == rests;
    next := [];
    for i := 0 to |rests|
      invariant Taken(rests[..i], next, m)
    {
      var rest := if Head(rests[i], m).Some? then rests[i][1..] else rests[i];
      TakenNext(rests, next, m, i, rest);
      next := next + [rest];
    }
  }

  lemma {:induction false} MergedSame(a: seq<seq<Row>>, b: seq<seq<Row>>, k: Key)
    requires |a| == |b| && forall i :: 0 <= i < |a| ==> Lookup(a[i], k) == Lookup(b[i], k)
    ensures Merged(a, k) == Merged(b, k)
    decreases |a|
  {
    if a != [] {
      MergedSame(a[..|a| - 1], b[..|b| - 1], k);
    }
  }

  lemma {:induction false} MergedNone(a: seq<seq<Row>>, k: Key)
    requires forall i :: 0 <= i < |a| ==> Lookup(a[i], k) == None
    ensures Merged(a, k) == None
    decreases |a|
  {
    if a != [] {
      MergedNone(a[..|a| - 1], k);
    }
  }

  /** A turn changes nothing for other keys and leaves nothing of its own. */
  lemma TurnLeaves(rests: seq<seq<Row>>, next: seq<seq<Row>>, m: Key, k: Key)
    requires AllRuns(rests) && Taken(rests, next, m)
    requires forall i :: 0 <= i < |rests| && rests[i] != [] ==> !Less(rests[i][0].key, m)
    ensures Merged(next, k) == if k == m then None else Merged(rests, k)
  {
    if k == m {
      forall i | 0 <= i < |next| ensures Lookup(next[i], m) == None {
        HeadLookup(rests[i], m);
      }
      MergedNone(next, m);
    } else {
      MergedSame(next, rests, k);
    }
  }

  // ---------------------------------------------------------------------------------------
  // The merge loop
  // ---------------------------------------------------------------------------------------

  /** What has been written holds the winners of the keys that are through; the others are still to come. */
  ghost predicate Merging(runs: seq<seq<Row>>, rests: seq<seq<Row>>, out: seq<Row>, drop: bool) {
    && AllRuns(rests) && IsRun(out)
    && (forall i, j, l :: 0 <= i < |rests| && 0 <= j < |rests[i]| && 0 <= l < |out| ==>
         Less(out[l].key, rests[i][j].key))
    && (forall k :: Emit(Merged(runs, k), drop)
                 == if Lookup(out, k).Some? then Lookup(out, k) else Emit(Merged(rests, k), drop))
  }

  lemma TurnKeepsRuns(rests: seq<seq<Row>>, next: seq<seq<Row>>, m: Key)
    requires AllRuns(rests) && Taken(rests, next, m)
    ensures AllRuns(next)
    ensures forall i, j :: 0 <= i < |next| && 0 <= j < |next[i]| ==> next[i][j] in rests[i]
  {
    forall i | 0 <= i < |next| ensures IsRun(next[i]) && forall j :: 0 <= j < |next[i]| ==> next[i][j] in rests[i] {
      if rests[i] != [] && rests[i][0].key == m {
        forall j | 0 <= j < |next[i]| ensures next[i][j] in rests[i] {
          assert next[i][j] == rests[i][j + 1];
        }
      }
    }
  }

  /** What is left lies behind the key that was taken. */
  lemma LeftBehind(rests: seq<seq<Row>>, next: seq<seq<Row>>, m: Key, i: nat, j: nat)
    requires AllRuns(rests) && Taken(rests, next, m) && i < |next| && j < |next[i]|
    requires forall i :: 0 <= i < |rests| && rests[i] != [] ==> !Less(rests[i][0].key, m)
    ensures Less(m, next[i][j].key)
  {
    var run := rests[i];
    var p := if run[0].key == m then j + 1 else j;
    assert next[i][j] == run[p];
    if run[0].key != m {
      Total(run[0].key, m);
      if p > 0 {
        Transitive(m, run[0].key, run[p].key);
      }
    }
  }

  lemma NotYetOut(out: seq<Row>, m: Key)
    requires forall l :: 0 <= l < |out| ==> Less(out[l].key, m)
    ensures Lookup(out, m) == None
  {
    LookupFinds(out, m);
    forall l | 0 <= l < |out| ensures out[l].key != m {
      Asymmetric(out[l].key, m);
    }
  }

  lemma WriteWinner(out: seq<Row>, win: Row, m: Key, k: Key)
    requires win.key == m && forall l :: 0 <= l < |out| ==> Less(out[l].key, m)
    ensures Lookup(out + [win], k) == if k == m then Some(win) else Lookup(out, k)
  {
    NotYetOut(out, m);
    LookupSnoc(out, win, k);
  }

  lemma TurnKeepsOrder(rests: seq<seq<Row>>, next: seq<seq<Row>>, out: seq<Row>, out': seq<Row>, m: Key)
    requires AllRuns(rests) && IsRun(out) && Taken(rests, next, m)
    requires forall i :: 0 <= i < |rests| && rests[i] != [] ==> !Less(rests[i][0].key, m)
    requires forall l :: 0 <= l < |out| ==> Less(out[l].key, m)
    requires out' == out || exists r: Row :: r.key == m && out' == out + [r]
    ensures AllRuns(next) && IsRun(out')
    ensures forall i, j, l :: 0 <= i < |next| && 0 <= j < |next[i]| && 0 <= l < |out'| ==>
              Less(out'[l].key, next[i][j].key)
  {
    TurnKeepsRuns(rests, next, m);
    forall i, j, l | 0 <= i < |next| && 0 <= j < |next[i]| && 0 <= l < |out'|
      ensures Less(out'[l].key, next[i][j].key) {
      LeftBehind(rests, next, m, i, j);
      if l < |out| {
        Transitive(out[l].key, m, next[i][j].key);
      }
    }
  }

  lemma OutBelow(runs: seq<seq<Row>>, rests: seq<seq<Row>>, out: seq<Row>, drop: bool, m: Key)
    requires Merging(runs, rests, out, drop)
    requires exists i :: 0 <= i < |rests| && rests[i] != [] && rests[i][0].key == m
    ensures forall l :: 0 <= l < |out| ==> Less(out[l].key, m)
  {
    var i :| 0 <= i < |rests| && rests[i] != [] && rests[i][0].key == m;
    forall l | 0 <= l < |out| ensures Less(out[l].key, m) {
      assert Less(out[l].key, rests[i][0].key);
    }
  }

  lemma TurnMerges(runs: seq<seq<Row>>, rests: seq<seq<Row>>, next: seq<seq<Row>>, out: seq<Row>, out': seq<Row>,
                   win: Option<Row>, m: Key, drop: bool)
    requires Merging(runs, rests, out, drop) && Taken(rests, next, m) && win == Merged(rests, m)
    requires exists i :: 0 <= i < |rests| && rests[i] != [] && rests[i][0].key == m
    requires forall i :: 0 <= i < |rests| && rests[i] != [] ==> !Less(rests[i][0].key, m)
    requires win.Some? ==> win.value.key == m
    requires out' == if Emit(win, drop).Some? then out + [win.value] else out
    ensures Merging(runs, next, out', drop)
  {
    OutBelow(runs, rests, out, drop, m);
    TurnKeepsOrder(rests, next, out, out', m);
    forall k
      ensures Emit(Merged(runs, k), drop)
           == if Lookup(out', k).Some? then Lookup(out', k) else Emit(Merged(next, k), drop)
    {
      TurnLeaves(rests, next, m, k);
      NotYetOut(out, m);
      if Emit(win, drop).Some? {
        WriteWinner(out, win.value, m, k);
      }
    }
  }

  function Left(rests: seq<seq<Row>>): nat {
    if rests == [] then 0 else Left(rests[..|rests| - 1]) + |rests[|rests| - 1]|
  }

  lemma {:induction false} LeftShrinks(rests: seq<seq<Row>>, next: seq<seq<Row>>, m: Key)
    requires Taken(rests, next, m)
    ensures Left(next) <= Left(rests)
    ensures (exists i :: 0 <= i < |rests| && rests[i] != [] && rests[i][0].key == m) ==> Left(next) < Left(rests)
    decreases |rests|
  {
    if rests != [] {
      var n := |rests| - 1;
      LeftShrinks(rests[..n], next[..n], m);
      if i :| 0 <= i < |rests| && rests[i] != [] && rests[i][0].key == m {
        if i < n {
          assert rests[..n][i] == rests[i];
        }
      }
    }
  }

  lemma {:induction false} MergedHasKey(runs: seq<seq<Row>>, k: Key)
    ensures Merged(runs, k).Some? ==> Merged(runs, k).value.key == k
    decreases |runs|
  {
    if runs != [] {
      MergedHasKey(runs[..|runs| - 1], k);
    }
  }

  lemma MergeDone(runs: seq<seq<Row>>, rests: seq<seq<Row>>, out: seq<Row>, drop: bool)
    requires Merging(runs, rests, out, drop) && forall i :: 0 <= i < |rests| ==> rests[i] == []
    ensures IsRun(out) && forall k :: Lookup(out, k) == Emit(Merged(runs, k), drop)
  {
    forall k ensures Lookup(out, k) == Emit(Merged(runs, k), drop) {
      MergedNone(rests, k);
    }
  }

  /** compact_all's loop: one run out of all, tombstones that win dropped. */
  method MergeByGen(runs: seq<seq<Row>>) returns (out: seq<Row>)
    requires AllRuns(runs)
    ensures IsRun(out) && forall k :: Lookup(out, k) == Emit(Merged(runs, k), true)
  {
    var rests := runs;
    out := [];
    while true
      invariant Merging(runs, rests, out, true)
      decreases Left(rests)
    {
      var m := MinKey(rests);
      if m == None {
        MergeDone(runs, rests, out, true);
        return;
      }
      var win, next := PickByGen(rests, m.value);
      MergedHasKey(rests, m.value);
      LeftShrinks(rests, next, m.value);
      var out' := if win.Some? && !win.value.tomb then out + [win.value] else out;
      TurnMerges(runs, rests, next, out, out', win, m.value, true);
      rests, out := next, out';
    }
  }

  /** The merge loop of SpillingRunBuilder.finish. */
  method MergeByRank(runs: seq<seq<Row>>, drop: bool) returns (out: seq<Row>)
    requires AllRuns(runs)
    ensures IsRun(out) && forall k :: Lookup(out, k) == Emit(Merged(runs, k), drop)
  {
    var rests := runs;
    out := [];
    while true
      invariant Merging(runs, rests, out, drop)
      decreases Left(rests)
    {
      var m := MinKey(rests);
      if m == None {
        MergeDone(runs, rests, out, drop);
        return;
      }
      var win, next := PickByRank(rests, m.value);
      MergedHasKey(rests, m.value);
      LeftShrinks(rests, next, m.value);
      var out' := if win.Some? && !(drop && win.value.tomb) then out + [win.value] else out;
      TurnMerges(runs, rests, next, out, out', win, m.value, drop);
      rests, out := next, out';
    }
  }
}
