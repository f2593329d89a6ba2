/**
  A lookup in the ordered key index while everything else goes on (src/fileops/oki_state.cpp 506-557): it looks into
  memory under one lock and takes the published runs after it has let go. Rows arrive and flushes and merges
  proceed in between; the answer is still one that was right at some moment of the lookup.
 */
module OkiLookups {
  import opened Bytes
  import opened OkiRows
  import opened OkiMerge
  import opened OkiView
  import opened OkiStates

  datatype World = World(hist: seq<Row>, delta: seq<Row>, runs: seq<seq<Row>>, wm: nat, flight: Flight)

  datatype Action =
    | Arrive(r: Row)                                        // append or append_update
    | Copy(held: seq<bool>, run: seq<Row>, cover: nat)      // a flush begins
    | Publish                                               // its run counts
    | Abort                                                 // or it fails
    | Trim                                                  // its rows leave memory
    | Compact(out: seq<Row>)                                // all runs become one

  ghost predicate Next(w: World, a: Action, w': World) {
    match a
    case Arrive(r) =>
      // Outside of recovery rows arrive in the order of their ords.
      NotOlder(w.hist, r) && w' == w.(hist := w.hist + [r], delta := w.delta + [r])
    case Copy(held, run, cover) =>
      && w.flight.Idle? && |held| == |w.delta| && HoldsWinners(w.delta, held)
      && Represents(run, Select(w.delta, held, false))
      && (forall r :: r in Select(w.delta, held, false) ==> r.ord < cover)
      && w' == w.(flight := Copied(held, run, cover))
    case Publish =>
      w.flight.Copied? && w' == w.(runs := w.runs + [w.flight.run],
                                   wm := Max(w.wm, w.flight.cover), flight := Published(w.flight.held))
    case Abort =>
      w.flight.Copied? && w' == w.(flight := Idle)
    case Trim =>
      w.flight.Published? && |w.flight.held| <= |w.delta|
      && var n := |w.flight.held|;
         w' == w.(delta := Select(w.delta[..n], w.flight.held, true) + w.delta[n..], flight := Idle)
    case Compact(out) =>
      w.flight.Idle? && (forall k :: Lookup(out, k) == Emit(Merged(w.runs, k), true)) && w' == w.(runs := [out])
  }

  ghost predicate Inv(w: World) {
    AllOk(w.hist, w.delta, w.runs, w.wm) && FlightOk(w.delta, w.runs, w.wm, w.flight)
  }

  lemma ArriveKeeps(w: World, r: Row, w': World)
    requires Inv(w) && Next(w, Arrive(r), w')
    ensures Inv(w')
  {
    AppendExactly(w.hist, w.delta, w.runs, w.wm, r);
    AppendInFlight(w.hist, w.delta, w.runs, w.wm, w.flight, r);
  }

  lemma CopyKeeps(w: World, held: seq<bool>, run: seq<Row>, cover: nat, w': World)
    requires Inv(w) && Next(w, Copy(held, run, cover), w')
    ensures Inv(w')
  {
    assert w.delta[..|held|] == w.delta && w.delta[|held|..] == [];
  }

  lemma PublishKeeps(w: World, w': World)
    requires Inv(w) && Next(w, Publish, w')
    ensures Inv(w')
  {
    CommitOk(w.hist, w.delta, w.runs, w.wm, |w.flight.held|, w.flight.held, w.flight.run, w'.wm);
  }

  lemma NextKeeps(w: World, a: Action, w': World)
    requires Inv(w) && Next(w, a, w')
    ensures Inv(w')
  {
    match a
    case Arrive(r) => ArriveKeeps(w, r, w');
    case Copy(held, run, cover) => CopyKeeps(w, held, run, cover, w');
    case Publish => PublishKeeps(w, w');
    case Abort =>
    case Trim => TrimOk(w.hist, w.delta, w.runs, w.wm, |w.flight.held|, w.flight.held);
    case Compact(out) => CompactOk(w.hist, w.delta, w.runs, w.wm, out);
  }

  // ---------------------------------------------------------------------------------------
  // What a lookup that began when there were h rows may answer
  // ---------------------------------------------------------------------------------------

  ghost predicate CameSince(hist: seq<Row>, h: nat, r: Row) {
    exists j :: h <= j < |hist| && hist[j] == r
  }

  /** The winner of then, or a row that has come since. */
  ghost predicate OneOf(hist: seq<Row>, h: nat, k: Key, x: Option<Row>)
    requires h <= |hist|
  {
    x == Win(hist[..h], k) || (x.Some? && x.value.key == k && CameSince(hist, h, x.value))
  }

  /** y shows x: they are the same, or x is a tombstone and y nothing. */
  predicate Shows(y: Option<Row>, x: Option<Row>) {
    y == x || (y == None && x.Some? && x.value.tomb)
  }

  ghost predicate ShowsOne(hist: seq<Row>, h: nat, k: Key, y: Option<Row>)
    requires h <= |hist|
  {
    exists x :: OneOf(hist, h, k, x) && Shows(y, x)
  }

  /** What holds while a lookup of a key that was not in memory goes on. */
  ghost predicate Reading(w: World, h: nat, k: Key) {
    && h <= |w.hist|
    && (forall r :: r in w.delta && r.key == k ==> CameSince(w.hist, h, r))
    && ShowsOne(w.hist, h, k, FirstHit(w.runs, k)) && ShowsOne(w.hist, h, k, Merged(w.runs, k))
    && (forall j :: h <= j < |w.hist| ==> IsWinner(w.hist, j))
  }

  /** Row j is the winner of its key when it comes. */
  ghost predicate IsWinner(hist: seq<Row>, j: nat)
    requires j < |hist|
  {
    Win(hist[..j + 1], hist[j].key) == Some(hist[j])
  }

  lemma ReadingBegins(w: World, k: Key)
    requires Inv(w) && Win(w.delta, k) == None
    ensures Reading(w, |w.hist|, k)
  {
    var h, x := |w.hist|, Win(w.hist, k);
    assert w.hist[..h] == w.hist;
    assert KeyOk(w.hist, w.delta, w.runs, w.wm, k);
    HitIsBelow(w.runs, k, x);
    HitIsMerged(w.runs, k, x);
    assert OneOf(w.hist, h, k, x);
    var i := WinIs(w.delta, k);
    forall r | r in w.delta ensures r.key != k {
      var j :| 0 <= j < |w.delta| && w.delta[j] == r;
      assert !HasKey(w.delta, k);
    }
  }

  lemma StillOne(hist: seq<Row>, r: Row, h: nat, k: Key, y: Option<Row>)
    requires h <= |hist| && ShowsOne(hist, h, k, y)
    ensures ShowsOne(hist + [r], h, k, y)
  {
    var x :| OneOf(hist, h, k, x) && Shows(y, x);
    assert (hist + [r])[..h] == hist[..h];
    if x != Win(hist[..h], k) {
      StillCame(hist, r, h, x.value);
    }
    assert OneOf(hist + [r], h, k, x);
  }

  lemma StillCame(hist: seq<Row>, r: Row, h: nat, s: Row)
    requires CameSince(hist, h, s)
    ensures CameSince(hist + [r], h, s)
  {
    var j :| h <= j < |hist| && hist[j] == s;
    assert (hist + [r])[j] == s;
  }

  lemma ReadingWhileArriving(w: World, r: Row, w': World, h: nat, k: Key)
    requires Reading(w, h, k) && Next(w, Arrive(r), w')
    ensures Reading(w', h, k)
  {
    StillOne(w.hist, r, h, k, FirstHit(w.runs, k));
    StillOne(w.hist, r, h, k, Merged(w.runs, k));
    forall s | s in w'.delta && s.key == k ensures CameSince(w'.hist, h, s) {
      if s in w.delta {
        StillCame(w.hist, r, h, s);
      } else {
        assert w'.hist[|w.hist|] == s;
      }
    }
    forall j | h <= j < |w'.hist| ensures IsWinner(w'.hist, j) {
      if j < |w.hist| {
        assert w'.hist[..j + 1] == w.hist[..j + 1] && IsWinner(w.hist, j);
      } else {
        assert w'.hist[..j + 1] == w.hist + [r];
        WinSnoc(w.hist, r, r.key);
      }
    }
  }

  lemma {:induction false} SelectedIsThere(rows: seq<Row>, flags: seq<bool>, b: bool)
    requires |flags| == |rows|
    ensures forall r :: r in Select(rows, flags, b) ==> r in rows
    decreases |rows|
  {
    if rows != [] {
      SelectedIsThere(rows[..|rows| - 1], flags[..|rows| - 1], b);
    }
  }

  lemma ReadingWhilePublishing(w: World, w': World, h: nat, k: Key)
    requires Inv(w) && Reading(w, h, k) && Next(w, Publish, w')
    ensures Reading(w', h, k)
  {
    var run, n := w.flight.run, |w.flight.held|;
    var flushed := Select(w.delta[..n], w.flight.held, false);
    SelectedIsThere(w.delta[..n], w.flight.held, false);
    FirstHitSnoc(w.runs, run, k);
    assert (w.runs + [run])[..|w.runs|] == w.runs;
    var found := Lookup(run, k);
    assert found == Win(flushed, k);
    if found.Some? {
      assert found.value in w.delta;
      assert OneOf(w.hist, h, k, found) && Shows(found, found);
    }
  }

  lemma ReadingWhileTrimming(w: World, w': World, h: nat, k: Key)
    requires Reading(w, h, k) && Next(w, Trim, w')
    ensures Reading(w', h, k)
  {
    var n := |w.flight.held|;
    SelectedIsThere(w.delta[..n], w.flight.held, true);
    forall r | r in w'.delta ensures r in w.delta {
    }
  }

  lemma ReadingWhileCompacting(w: World, out: seq<Row>, w': World, h: nat, k: Key)
    requires Reading(w, h, k) && Next(w, Compact(out), w')
    ensures Reading(w', h, k)
  {
    var y := Merged(w.runs, k);
    var x :| OneOf(w.hist, h, k, x) && Shows(y, x);
    FirstHitSnoc([], out, k);
    assert [] + [out] == [out] && [out][..0] == [];
    assert Shows(Emit(y, true), x);
    assert Merged([out], k) == Combine(Merged([], k), Lookup(out, k));
  }

  lemma ReadingGoesOn(w: World, a: Action, w': World, h: nat, k: Key)
    requires Inv(w) && Reading(w, h, k) && Next(w, a, w')
    ensures Reading(w', h, k)
  {
    match a
    case Arrive(r) => ReadingWhileArriving(w, r, w', h, k);
    case Copy(_, _, _) =>
    case Publish => ReadingWhilePublishing(w, w', h, k);
    case Abort =>
    case Trim => ReadingWhileTrimming(w, w', h, k);
    case Compact(out) => ReadingWhileCompacting(w, out, w', h, k);
  }

  // ---------------------------------------------------------------------------------------
  // Runs
  // ---------------------------------------------------------------------------------------

  ghost predicate IsRunOf(ws: seq<World>, actions: seq<Action>) {
    |ws| == |actions| + 1 && Inv(ws[0]) && forall i :: 0 <= i < |actions| ==> Next(ws[i], actions[i], ws[i + 1])
  }

  lemma {:induction false} RunKeeps(ws: seq<World>, actions: seq<Action>, n: nat)
    requires IsRunOf(ws, actions) && n < |ws|
    ensures Inv(ws[n])
    decreases n
  {
    if n > 0 {
      RunKeeps(ws, actions, n - 1);
      NextKeeps(ws[n - 1], actions[n - 1], ws[n]);
    }
  }

  lemma ReadingStep(ws: seq<World>, actions: seq<Action>, n: nat, h: nat, k: Key)
    requires IsRunOf(ws, actions) && n < |actions| && Reading(ws[n], h, k)
    ensures Reading(ws[n + 1], h, k)
  {
    RunKeeps(ws, actions, n);
    ReadingGoesOn(ws[n], actions[n], ws[n + 1], h, k);
  }

  lemma {:induction false} ReadingAt(ws: seq<World>, actions: seq<Action>, s: nat, n: nat, k: Key)
    requires IsRunOf(ws, actions) && s <= n < |ws| && Win(ws[s].delta, k) == None
    ensures Reading(ws[n], |ws[s].hist|, k)
    decreases n
  {
    if n == s {
      RunKeeps(ws, actions, n);
      ReadingBegins(ws[n], k);
    } else {
      ReadingAt(ws, actions, s, n - 1, k);
      ReadingStep(ws, actions, n - 1, |ws[s].hist|, k);
    }
  }

  /** Rows come one at a time, so every length of the history was there at some moment. */
  lemma {:induction false} Moment(ws: seq<World>, actions: seq<Action>, s: nat, n: nat, j: nat) returns (m: nat)
    requires IsRunOf(ws, actions) && s <= n < |ws| && |ws[s].hist| <= j <= |ws[n].hist|
    ensures s <= m <= n && ws[m].hist == ws[n].hist[..j]
    decreases n
  {
    if j == |ws[n].hist| {
      m := n;
    } else {
      assert Next(ws[n - 1], actions[n - 1], ws[n]);
      m := Moment(ws, actions, s, n - 1, j);
      assert ws[n].hist[..j] == ws[n - 1].hist[..j];
    }
  }

  /** What is shown was the winner when there were j rows. */
  lemma WonAt(hist: seq<Row>, h: nat, k: Key, y: Option<Row>) returns (j: nat)
    requires h <= |hist| && ShowsOne(hist, h, k, y) && forall j :: h <= j < |hist| ==> IsWinner(hist, j)
    ensures h <= j <= |hist| && Live(y) == Live(Win(hist[..j], k))
    ensures y.Some? ==> y == Win(hist[..j], k)
  {
    var x :| OneOf(hist, h, k, x) && Shows(y, x);
    if x == Win(hist[..h], k) {
      j := h;
    } else {
      var i :| h <= i < |hist| && hist[i] == x.value;
      assert IsWinner(hist, i);
      j := i + 1;
    }
  }

  /** The lookup sees memory at moment s and, if the key is not there, the runs of moment n. */
  ghost function Answered(ws: seq<World>, s: nat, n: nat, k: Key): Option<Row>
    requires s <= n < |ws|
  {
    var d := Win(ws[s].delta, k);
    if d.Some? then d else FirstHit(ws[n].runs, k)
  }

  /** In every run, whatever happens between its two looks, a lookup answers what was right at some moment between them:
      a hit was the winner of all rows to the last field, and a miss means that there was none or a tombstone. */
  lemma LookupIsRightAtSomeMoment(ws: seq<World>, actions: seq<Action>, s: nat, n: nat, k: Key) returns (m: nat)
    requires IsRunOf(ws, actions) && s <= n < |ws|
    ensures s <= m <= n && Live(Answered(ws, s, n, k)) == Live(Win(ws[m].hist, k))
    ensures Answered(ws, s, n, k).Some? ==> Answered(ws, s, n, k) == Win(ws[m].hist, k)
  {
    if Win(ws[s].delta, k).Some? {
      RunKeeps(ws, actions, s);
      assert KeyOk(ws[s].hist, ws[s].delta, ws[s].runs, ws[s].wm, k);
      m := s;
    } else {
      ReadingAt(ws, actions, s, n, k);
      var j := WonAt(ws[n].hist, |ws[s].hist|, k, FirstHit(ws[n].runs, k));
      m := Moment(ws, actions, s, n, j);
    }
  }
}
