/**
  Opening a field-name file, adding names to it, failed writes and crashes: what each step does to the
  file and to the registry in memory, and what holds over every run of such steps.
 */
module SchemaRecovery {
  import opened Bytes
  import LE = LittleEndian
  import opened SchemaFormat
  import opened PositionedWrites

  // ---------------------------------------------------------------------------------------
  // Loading
  // ---------------------------------------------------------------------------------------

  datatype Loaded =
    | Fresh                                             // no file or an empty one
    | Bad                                               // unknown version or a damaged entry
    | Names(legacy: bool, names: seq<Name>, end: nat)

  predicate HasMagic(f: seq<byte>) {
    |f| >= 4 && f[..4] == MAGIC
  }

  function Load(f: seq<byte>, sum: Checksum): (r: Loaded)
    ensures r.Names? ==> AllShort(r.names) && r.end <= |f|
  {
    if f == [] then Fresh
    else if HasMagic(f) then
      if |f| < 8 || f[4..8] != [1, 0, 0, 0] then Bad
      else
        ParseShort(f, 8, false, sum);
        match Parse(f, 8, false, sum)
        case None => Bad
        case Some((names, end)) => Names(false, names, end)
    else
      ParseShort(f, 0, true, sum);
      match Parse(f, 0, true, sum)
      case None => Bad
      case Some((names, end)) => Names(true, names, end)
  }

  /** The names that make a headerless file look like one with a header. */
  predicate MagicName(name: Name) {
    |name| == 0x4348 && name[..2] == [0x53, 0x46]
  }

  lemma FirstBytes(name: Name, e: seq<byte>)
    requires Short(name) && e == Covered(name)
    ensures |e| == 2 + |name| && e[0] as int + 256 * e[1] as int == |name| && e[2..] == name
  {
    var n := |name|;
    var high := LE.Put(n / 256, 1);
    assert LE.Put16(n) == [n % 256] + high;
    assert high == [n / 256 % 256] + LE.Put(n / 256 / 256, 0);
    assert e == LE.Put16(n) + name;
    assert e[0] == n % 256 && e[1] == high[0];
  }

  lemma FirstEntry(names: seq<Name>, sum: Checksum, e: seq<byte>)
    requires AllShort(names) && names != [] && e == Covered(names[0])
    ensures e <= File(true, names, sum)
  {
    FileNext(true, names, sum, 0);
    assert names[..0] == [];
    FilePrefix(true, names, sum, 1);
    assert [] + e == e;
  }

  lemma MagicFromBytes(f: seq<byte>, e: seq<byte>, name: Name)
    requires e <= f && |e| == 2 + |name| && Short(name)
    requires e[0] as int + 256 * e[1] as int == |name| && e[2..] == name
    ensures HasMagic(f) <==> MagicName(name)
  {
    assert f[0] == e[0] && f[1] == e[1];
    if |name| >= 2 {
      assert f[2] == e[2] == name[0] && f[3] == e[3] == name[1];
    }
  }

  /** A headerless file starts with the magic number exactly when its first name is of that kind. */
  lemma LegacyMagic(names: seq<Name>, sum: Checksum)
    requires AllShort(names)
    ensures HasMagic(File(true, names, sum)) <==> names != [] && MagicName(names[0])
  {
    if names != [] {
      var e := Covered(names[0]);
      FirstEntry(names, sum, e);
      FirstBytes(names[0], e);
      MagicFromBytes(File(true, names, sum), e, names[0]);
    }
  }

  lemma MagicPrefix(f: seq<byte>, g: seq<byte>)
    requires f <= g && HasMagic(f)
    ensures HasMagic(g)
  {
  }

  lemma LoadIs(f: seq<byte>, legacy: bool, names: seq<Name>, end: nat, sum: Checksum)
    requires f != [] && |Start(legacy)| <= |f| && (if legacy then !HasMagic(f) else HEADER <= f)
    requires Parse(f, |Start(legacy)|, legacy, sum) == Some((names, end))
    ensures Load(f, sum) == Names(legacy, names, end)
  {
    if !legacy {
      assert f[..4] == HEADER[..4] && f[4..8] == HEADER[4..8];
    }
  }

  lemma HeaderFirst(f: seq<byte>, names: seq<Name>, sum: Checksum)
    requires AllShort(names) && f <= File(false, names, sum) && |f| >= 8
    ensures HEADER <= f
  {
    FilePrefix(false, names, sum, 0);
    assert names[..0] == [];
  }

  lemma NoMagic(f: seq<byte>, names: seq<Name>, sum: Checksum)
    requires AllShort(names) && f <= File(true, names, sum) && (names == [] || !MagicName(names[0]))
    ensures !HasMagic(f)
  {
    LegacyMagic(names, sum);
    if HasMagic(f) {
      MagicPrefix(f, File(true, names, sum));
    }
  }

  /** A file cut anywhere after its header loads as the names whose entries are complete. */
  lemma LoadCut(f: seq<byte>, legacy: bool, names: seq<Name>, sum: Checksum, k: nat, done: seq<byte>)
    requires AllShort(names) && f <= File(legacy, names, sum) && f != [] && |f| >= |Start(legacy)|
    requires legacy ==> names == [] || !MagicName(names[0])
    requires k == Whole(legacy, names, sum, |f|) && done == File(legacy, names[..k], sum)
    ensures k <= |names| && Load(f, sum) == Names(legacy, names[..k], |done|)
    ensures done <= f
  {
    assert names[..0] == [];
    FilePrefix(legacy, names, sum, 0);
    ParseCut(f, legacy, names, sum, 0, k, File(legacy, names, sum), Start(legacy));
    assert names[0..k] == names[..k];
    FilePrefix(legacy, names, sum, k);
    if legacy {
      NoMagic(f, names, sum);
    } else {
      HeaderFirst(f, names, sum);
    }
    LoadIs(f, legacy, names[..k], |done|, sum);
  }

  /** Part of a header, as a crash during the very first write leaves it. */
  lemma LoadHeaderPiece(f: seq<byte>, sum: Checksum)
    requires f <= HEADER && |f| < 8
    ensures f == [] ==> Load(f, sum) == Fresh
    ensures 0 < |f| < 4 ==> Load(f, sum) == Names(true, [], 0)
    ensures |f| >= 4 ==> Load(f, sum) == Bad
  {
    if 0 < |f| < 4 {
      if |f| >= 2 {
        assert f[0..2] == [0x48, 0x43];
        assert f[0..2][1..] == [0x43] && [0x43 as byte][1..] == [];
      }
      assert LookAt(f, 0, true, sum) == Cut;
      ParseStops(f, 0, true, sum);
    }
  }

  // ---------------------------------------------------------------------------------------
  // Opening
  // ---------------------------------------------------------------------------------------

  /** The registry of one process. */
  datatype Session = Session(
    names: seq<Name>,                                   // id_to_name_
    open: bool,                                         // holds a write handle
    legacy: bool,
    failed: bool,                                       // persist_failed_
    woff: nat)

  /** What the operating system lets an open do. */
  datatype Env = Env(
    canOpen: bool,                                      // the write handle can be opened
    sizeKnown: bool,
    truncates: bool,
    upgrades: bool,                                     // the rewrite of a headerless file goes through
    readable: nat,                                      // bytes that can be read, none if it cannot be opened for that
    landed: nat)                                        // bytes of a new header that reach the disk

  /** What the reading half sees; a read that fails is taken for the end of the file. */
  function Read(f: seq<byte>, env: Env): (g: seq<byte>)
    ensures g <= f
  {
    UpTo(f, env.readable)
  }

  /** Nothing was read. */
  ghost function OpenNew(f: seq<byte>, env: Env): (seq<byte>, Session) {
    if !(env.canOpen && env.sizeKnown) || (f != [] && !env.truncates) then (f, Session([], false, false, false, 0))
    else if env.landed >= |HEADER| then (HEADER, Session([], true, false, false, |HEADER|))
    else (HEADER[..env.landed], Session([], false, false, true, 0))
  }

  ghost function OpenNames(f: seq<byte>, legacy: bool, names: seq<Name>, end: nat, env: Env,
                           sum: Checksum): (seq<byte>, Session)
    requires AllShort(names) && end <= |f|
  {
    if legacy && env.upgrades then
      var g := File(false, names, sum);
      (g, if env.canOpen && env.sizeKnown then Session(names, true, false, false, |g|)
          else Session(names, false, false, false, 0))
    else if !(env.canOpen && env.sizeKnown) then (f, Session(names, false, legacy, false, 0))
    else if |f| > end && !env.truncates then (f, Session(names, false, legacy, false, end))
    else (f[..end], Session(names, true, legacy, false, end))
  }

  /** open: the file afterwards and the registry, or none for its hard failures. */
  ghost function AfterOpen(f: seq<byte>, env: Env, sum: Checksum): Option<(seq<byte>, Session)> {
    match Load(Read(f, env), sum)
    case Bad => None
    case Fresh => Some(OpenNew(f, env))
    case Names(legacy, names, end) => Some(OpenNames(f, legacy, names, end, env, sum))
  }

  /** intern of a name that is not there yet, of whose entry `landed` bytes reach the disk. */
  ghost function AfterIntern(f: seq<byte>, s: Session, name: Name, landed: nat,
                             sum: Checksum): (r: (seq<byte>, Session))
    requires s.open ==> s.woff == |f|
  {
    var more := s.names + [name];
    if name in s.names then (f, s)
    else if !s.open then (f, s.(names := more))
    else
      var e := EntryBytes(s.legacy, name, sum);
      if landed >= |e| then (f + e, s.(names := more, woff := s.woff + |e|))
      else (f + e[..landed], s.(names := more, open := false, failed := true))
  }

  // ---------------------------------------------------------------------------------------
  // The invariant
  // ---------------------------------------------------------------------------------------

  /** sent lists the names of which at least part of the entry was written to the file as it stands. */
  ghost predicate OnDisk(f: seq<byte>, legacy: bool, sent: seq<Name>, names: seq<Name>, sum: Checksum) {
    && AllShort(sent) && AllShort(names)
    && |f| >= |Start(legacy)| && f <= File(legacy, sent, sum)
    && (legacy ==> sent == [] || !MagicName(sent[0]))
    && sent[..Whole(legacy, sent, sum, |f|)] <= names
  }

  /** What is on disk begins the list in memory; while the handle is held it is the list in memory. */
  ghost predicate Inv(f: seq<byte>, s: Session, sent: seq<Name>, legacy: bool, sum: Checksum) {
    && (s.open ==>
         s.legacy == legacy && sent == s.names && s.woff == |f| && AllShort(sent) && f == File(legacy, sent, sum))
    && AllShort(s.names)
    && (OnDisk(f, legacy, sent, s.names, sum) || (f < HEADER && !s.open))
  }

  lemma {:induction false} WholeMonotone(legacy: bool, names: seq<Name>, sum: Checksum, a: nat, b: nat)
    requires AllShort(names) && |Start(legacy)| <= a <= b
    ensures Whole(legacy, names, sum, a) <= Whole(legacy, names, sum, b)
    decreases |names|
  {
    if |File(legacy, names, sum)| > b {
      WholeMonotone(legacy, names[..|names| - 1], sum, a, b);
    }
  }

  lemma LongerMemory(f: seq<byte>, legacy: bool, sent: seq<Name>, names: seq<Name>, more: seq<Name>, sum: Checksum)
    requires OnDisk(f, legacy, sent, names, sum) && names <= more && AllShort(more)
    ensures OnDisk(f, legacy, sent, more, sum)
  {
  }

  lemma Appended(legacy: bool, sent: seq<Name>, name: Name, e: seq<byte>, n: nat, sum: Checksum)
    requires AllShort(sent) && Short(name) && AllShort(sent + [name]) && e == EntryBytes(legacy, name, sum) && n <= |e|
    requires legacy ==> if sent == [] then !MagicName(name) else !MagicName(sent[0])
    ensures File(legacy, sent + [name], sum) == File(legacy, sent, sum) + e
    ensures OnDisk(File(legacy, sent, sum) + e[..n], legacy, sent + [name], sent + [name], sum)
  {
    var all := sent + [name];
    FileNext(legacy, all, sum, |sent|);
    assert all[..|sent| + 1] == all && all[..|sent|] == sent;
    StartsWithStart(legacy, sent, sum);
    BeginsWhole(File(legacy, sent, sum), e, n, File(legacy, all, sum));
    PartOnDisk(File(legacy, sent, sum) + e[..n], legacy, all, sum);
  }

  lemma BeginsWhole(front: seq<byte>, e: seq<byte>, n: nat, whole: seq<byte>)
    requires n <= |e| && whole == front + e
    ensures front + e[..n] <= whole
  {
  }

  lemma PartOnDisk(f: seq<byte>, legacy: bool, sent: seq<Name>, sum: Checksum)
    requires AllShort(sent) && |f| >= |Start(legacy)| && f <= File(legacy, sent, sum)
    requires legacy ==> sent == [] || !MagicName(sent[0])
    ensures OnDisk(f, legacy, sent, sent, sum)
  {
  }

  /** Adding a name keeps the invariant, however much of its entry is written. While a headerless file is
      empty, the first name must not be of the kind that looks like a header. */
  lemma InternKeeps(f: seq<byte>, s: Session, sent: seq<Name>, legacy: bool, name: Name, landed: nat, sum: Checksum)
    returns (sent': seq<Name>)
    requires Inv(f, s, sent, legacy, sum) && Short(name)
    requires s.open && s.legacy && s.names == [] ==> !MagicName(name)
    ensures var (f', s') := AfterIntern(f, s, name, landed, sum);
      && Inv(f', s', sent', legacy, sum) && s.names <= s'.names && name in s'.names
  {
    sent' := sent;
    var more := s.names + [name];
    if name !in s.names {
      if s.open {
        sent' := more;
        var e := EntryBytes(s.legacy, name, sum);
        Appended(legacy, sent, name, e, if landed >= |e| then |e| else landed, sum);
        assert e[..|e|] == e;
      } else if OnDisk(f, legacy, sent, s.names, sum) {
        LongerMemory(f, legacy, sent, s.names, more, sum);
      }
      assert name == more[|s.names|];
    }
  }

  lemma CutOnDisk(f: seq<byte>, legacy: bool, sent: seq<Name>, names: seq<Name>, cut: nat, sum: Checksum)
    requires OnDisk(f, legacy, sent, names, sum) && cut <= |f|
    ensures OnDisk(f[..cut], legacy, sent, names, sum) || f[..cut] < HEADER
  {
    if cut >= |Start(legacy)| {
      WholeMonotone(legacy, sent, sum, cut, |f|);
      var k, l := Whole(legacy, sent, sum, cut), Whole(legacy, sent, sum, |f|);
      assert sent[..k] == sent[..l][..k];
    } else {
      HeaderFirst(f, sent, sum);
      assert f[..cut] == HEADER[..cut];
    }
  }

  /** A crash may keep any beginning of the file. */
  lemma CrashKeeps(f: seq<byte>, s: Session, sent: seq<Name>, legacy: bool, cut: nat, sum: Checksum)
    requires Inv(f, s, sent, legacy, sum) && cut <= |f|
    ensures OnDisk(f[..cut], legacy, sent, s.names, sum) || f[..cut] < HEADER
  {
    if OnDisk(f, legacy, sent, s.names, sum) {
      CutOnDisk(f, legacy, sent, s.names, cut, sum);
    } else {
      assert f[..cut] == HEADER[..cut];
    }
  }

  lemma WholeFile(legacy: bool, names: seq<Name>, sum: Checksum)
    requires AllShort(names) && (legacy ==> names == [] || !MagicName(names[0]))
    ensures OnDisk(File(legacy, names, sum), legacy, names, names, sum)
  {
    StartsWithStart(legacy, names, sum);
  }

  /** Either the whole file was read, or what was not read is gone after the open. */
  ghost predicate Settled(f: seq<byte>, env: Env, sum: Checksum) {
    || |f| <= env.readable
    || (env.canOpen && env.sizeKnown && env.truncates)
    || (env.upgrades && Load(Read(f, env), sum).Names? && Load(Read(f, env), sum).legacy)
  }

  /** Opening a file whose readable part holds the beginning of what was sent: the names on it are recovered in
      order. */
  lemma OpenKeeps(f: seq<byte>, names: seq<Name>, sent: seq<Name>, legacy: bool, env: Env, sum: Checksum)
    returns (sent': seq<Name>, legacy': bool)
    requires OnDisk(Read(f, env), legacy, sent, names, sum) && Read(f, env) != []
    ensures AfterOpen(f, env, sum).Some?
    ensures var (f', s') := AfterOpen(f, env, sum).value;
      && s'.names == sent[..Whole(legacy, sent, sum, |Read(f, env)|)]
      && (Settled(f, env, sum) ==> Inv(f', s', sent', legacy', sum))
      && (!Settled(f, env, sum) ==> f' == f && !s'.open)
  {
    var g := Read(f, env);
    var k := Whole(legacy, sent, sum, |g|);
    var done := File(legacy, sent[..k], sum);
    LoadCut(g, legacy, sent, sum, k, done);
    assert f[..|done|] == done;
    if legacy && env.upgrades {
      sent', legacy' := sent[..k], false;
      WholeFile(false, sent', sum);
    } else if !(env.canOpen && env.sizeKnown) || (|f| > |done| && !env.truncates) {
      sent', legacy' := sent, legacy;
    } else {
      sent', legacy' := sent[..k], legacy;
      WholeFile(legacy, sent', sum);
    }
  }

  /** The same when there is nothing to be read but possibly a piece of a header. Four to seven bytes of one
      are refused. */
  lemma OpenFresh(f: seq<byte>, env: Env, sum: Checksum) returns (legacy: bool)
    requires Read(f, env) < HEADER
    ensures AfterOpen(f, env, sum).Some? <==> |Read(f, env)| < 4
    ensures |Read(f, env)| < 4 ==>
              var (f', s') := AfterOpen(f, env, sum).value;
              && s'.names == [] && (Settled(f, env, sum) ==> Inv(f', s', [], legacy, sum))
  {
    var g := Read(f, env);
    LoadHeaderPiece(g, sum);
    legacy := false;
    if 0 < |g| < 4 && !env.upgrades && env.canOpen && env.sizeKnown && env.truncates {
      legacy := true;
      assert f[..0] == [];
    }
    WholeFile(legacy, [], sum);
  }

  /** Crash and reopen, from any state a run can reach: unless four to seven bytes of a header are all that can be
      read, opening succeeds, and what it recovers is a beginning of the list that was in memory; all of it when
      every write had succeeded, no byte was lost and every byte could be read. */
  lemma CrashAndReopen(f: seq<byte>, s: Session, sent: seq<Name>, legacy: bool, cut: nat, env: Env, sum: Checksum)
    returns (sent': seq<Name>, legacy': bool)
    requires Inv(f, s, sent, legacy, sum) && cut <= |f|
    ensures AfterOpen(f[..cut], env, sum).Some? <==> !(Read(f[..cut], env) < HEADER && 4 <= |Read(f[..cut], env)|)
    ensures AfterOpen(f[..cut], env, sum).Some? ==>
              var (f', s') := AfterOpen(f[..cut], env, sum).value;
              && s'.names <= s.names
              && (s.open && cut == |f| <= env.readable ==> s'.names == s.names)
              && (Settled(f[..cut], env, sum) ==> Inv(f', s', sent', legacy', sum))
  {
    var c := f[..cut];
    var g := Read(c, env);
    assert g == f[..|g|];
    CrashKeeps(f, s, sent, legacy, |g|, sum);
    if g < HEADER {
      sent' := [];
      legacy' := OpenFresh(c, env, sum);
      if s.open && cut == |f| <= env.readable {
        assert g == f;
        NothingSent(f, s.names, legacy, sum);
      }
    } else {
      sent', legacy' := OpenKeeps(c, s.names, sent, legacy, env, sum);
      assert s.open && |g| == |f| ==> Whole(legacy, sent, sum, |g|) == |sent|;
    }
  }

  // ---------------------------------------------------------------------------------------
  // Reads that fail
  // ---------------------------------------------------------------------------------------

  /** Names survive an open exactly if everything up to the end of the last complete entry could be read. */
  lemma NamesSurviveExactly(f: seq<byte>, names: seq<Name>, sent: seq<Name>, legacy: bool, k: nat, env: Env,
                            sum: Checksum)
    requires OnDisk(f, legacy, sent, names, sum) && k == Whole(legacy, sent, sum, |f|) > 0
    ensures AfterOpen(f, env, sum).Some? && AfterOpen(f, env, sum).value.1.names == sent[..k]
       <==> env.readable >= |File(legacy, sent[..k], sum)|
  {
    var g, done := Read(f, env), File(legacy, sent[..k], sum);
    WholeEnds(legacy, sent, sum, |f|, k);
    FilePrefix(legacy, sent, sum, k);
    assert g == f[..|g|] && done <= f;
    CutOnDisk(f, legacy, sent, names, |g|, sum);
    if g < HEADER {
      var _ := OpenFresh(f, env, sum);
      if |g| >= |done| {
        NothingSent(done, sent[..k], legacy, sum);
      }
    } else {
      var _, _ := OpenKeeps(f, names, sent, legacy, env, sum);
      if |g| >= |done| {
        WholeIs(legacy, sent, sum, |g|, k);
      } else {
        WholeEnds(legacy, sent, sum, |g|, Whole(legacy, sent, sum, |g|));
      }
    }
  }

  /** A short read after which the file could not be cut either: the names that were not read are still there. A name
      that is added now takes the id of the first of them in memory, and at the next open that id has its old name
      again. */
  lemma IdChangesItsName(f: seq<byte>, names: seq<Name>, sent: seq<Name>, legacy: bool, k: nat, j: nat, env: Env,
                         name: Name, landed: nat, next: Env, sum: Checksum)
    requires OnDisk(f, legacy, sent, names, sum) && k == Whole(legacy, sent, sum, |f|)
    requires OnDisk(Read(f, env), legacy, sent, names, sum) && Read(f, env) != []
    requires j == Whole(legacy, sent, sum, |Read(f, env)|) < k && !Settled(f, env, sum)
    requires name !in sent[..j] && next.readable >= |f|
    ensures AfterOpen(f, env, sum).Some? && AfterOpen(f, next, sum).Some?
    ensures var (f', s') := AfterOpen(f, env, sum).value;
            && f' == f && !s'.open
            && var (f'', s'') := AfterIntern(f', s', name, landed, sum);
               f'' == f && s''.names == sent[..j] + [name]
    ensures AfterOpen(f, next, sum).value.1.names == sent[..k]
  {
    var _, _ := OpenKeeps(f, names, sent, legacy, env, sum);
    var _, _ := OpenKeeps(f, names, sent, legacy, next, sum);
  }

  lemma LongFirst(f: seq<byte>, names: seq<Name>, sum: Checksum)
    requires AllShort(names) && names != [] && f == File(true, names, sum)
    ensures |f| >= 2 && (f[0] == 0x48 && f[1] == 0x43 ==> |f| > 8)
  {
    var e := Covered(names[0]);
    FirstEntry(names, sum, e);
    FirstBytes(names[0], e);
    assert f[0] == e[0] && f[1] == e[1];
  }

  /** A headerless file that is a piece of a header is empty. */
  lemma NothingSent(f: seq<byte>, names: seq<Name>, legacy: bool, sum: Checksum)
    requires AllShort(names) && f == File(legacy, names, sum) && f < HEADER
    ensures legacy && names == []
  {
    StartsWithStart(legacy, names, sum);
    if names != [] {
      LongFirst(f, names, sum);
    }
  }

  // ---------------------------------------------------------------------------------------
  // Every run
  // ---------------------------------------------------------------------------------------

  datatype World = World(file: seq<byte>, s: Session)

  datatype Event =
    | Add(name: Name, landed: nat)
    | Restart(cut: nat, env: Env)                       // a crash, then open by a new process

  /** A restart must not find four to seven bytes of a header, and what it cannot read must be gone afterwards. */
  ghost predicate Allowed(w: World, ev: Event, sum: Checksum) {
    match ev
    case Add(name, _) =>
      && Short(name) && (w.s.open ==> w.s.woff == |w.file|)
      && (w.s.open && w.s.legacy && w.s.names == [] ==> !MagicName(name))
    case Restart(cut, env) =>
      && cut <= |w.file| && Settled(w.file[..cut], env, sum)
      && var g := Read(w.file[..cut], env); !(g < HEADER && 4 <= |g|)
  }

  /** The world after an event, none when open fails hard. */
  ghost function After(w: World, ev: Event, sum: Checksum): Option<World>
    requires Allowed(w, ev, sum)
  {
    match ev
    case Add(name, landed) =>
      var (f, s) := AfterIntern(w.file, w.s, name, landed, sum);
      Some(World(f, s))
    case Restart(cut, env) =>
      match AfterOpen(w.file[..cut], env, sum)
      case None => None
      case Some((f, s)) => Some(World(f, s))
  }

  /** A run begins with a first open, of no file or of a headerless one that may itself be cut off. */
  ghost predicate IsRun(run: seq<World>, events: seq<Event>, prior: seq<Name>, f: seq<byte>, env: Env, sum: Checksum) {
    && |run| == |events| + 1
    && AllShort(prior) && f <= File(true, prior, sum) && (prior == [] || !MagicName(prior[0]))
    && Settled(f, env, sum) && AfterOpen(f, env, sum) == Some((run[0].file, run[0].s))
    && forall k :: 0 <= k < |events| ==>
         Allowed(run[k], events[k], sum) && After(run[k], events[k], sum) == Some(run[k + 1])
  }

  lemma StepKeeps(w: World, sent: seq<Name>, legacy: bool, ev: Event, sum: Checksum)
    returns (sent': seq<Name>, legacy': bool)
    requires Inv(w.file, w.s, sent, legacy, sum) && Allowed(w, ev, sum)
    ensures After(w, ev, sum).Some?
    ensures Inv(After(w, ev, sum).value.file, After(w, ev, sum).value.s, sent', legacy', sum)
    ensures ev.Add? ==> w.s.names <= After(w, ev, sum).value.s.names
    ensures ev.Restart? ==> After(w, ev, sum).value.s.names <= w.s.names
    ensures ev.Restart? && w.s.open && ev.cut == |w.file| <= ev.env.readable ==>
              After(w, ev, sum).value.s.names == w.s.names
  {
    match ev
    case Add(name, landed) =>
      sent' := InternKeeps(w.file, w.s, sent, legacy, name, landed, sum);
      legacy' := legacy;
    case Restart(cut, env) =>
      sent', legacy' := CrashAndReopen(w.file, w.s, sent, legacy, cut, env, sum);
  }

  lemma FirstOpenKeeps(f: seq<byte>, prior: seq<Name>, env: Env, sum: Checksum) returns (sent: seq<Name>, legacy: bool)
    requires AllShort(prior) && f <= File(true, prior, sum) && (prior == [] || !MagicName(prior[0]))
    requires Settled(f, env, sum)
    ensures AfterOpen(f, env, sum).Some?
    ensures Inv(AfterOpen(f, env, sum).value.0, AfterOpen(f, env, sum).value.1, sent, legacy, sum)
  {
    var g := Read(f, env);
    if g == [] {
      sent := [];
      legacy := OpenFresh(f, env, sum);
    } else {
      sent, legacy := OpenKeeps(f, prior, prior, true, env, sum);
    }
  }

  lemma {:induction false} RunKeeps(run: seq<World>, events: seq<Event>, prior: seq<Name>, f: seq<byte>, env: Env,
                                    sum: Checksum, k: nat)
    returns (sent: seq<Name>, legacy: bool)
    requires IsRun(run, events, prior, f, env, sum) && k < |run|
    ensures Inv(run[k].file, run[k].s, sent, legacy, sum)
  {
    if k == 0 {
      sent, legacy := FirstOpenKeeps(f, prior, env, sum);
    } else {
      sent, legacy := RunKeeps(run, events, prior, f, env, sum, k - 1);
      sent, legacy := StepKeeps(run[k - 1], sent, legacy, events[k - 1], sum);
    }
  }

  /** At any point of any run a restart succeeds, whatever beginning of the file survives and however much of that can
      be read (but for a piece of four to seven bytes of a header), and every id it recovers has the name it had
      before. */
  lemma IdsKeepTheirNames(run: seq<World>, events: seq<Event>, prior: seq<Name>, f: seq<byte>, env: Env, sum: Checksum,
                          k: nat, cut: nat, env': Env, id: nat)
    requires IsRun(run, events, prior, f, env, sum) && k < |run| && cut <= |run[k].file|
    requires var g := Read(run[k].file[..cut], env'); !(g < HEADER && 4 <= |g|)
    ensures AfterOpen(run[k].file[..cut], env', sum).Some?
    ensures var names := AfterOpen(run[k].file[..cut], env', sum).value.1.names;
      && |names| <= |run[k].s.names|
      && (id < |names| ==> names[id] == run[k].s.names[id])
      && (run[k].s.open && cut == |run[k].file| <= env'.readable ==> names == run[k].s.names)
  {
    var sent, legacy := RunKeeps(run, events, prior, f, env, sum, k);
    var _, _ := CrashAndReopen(run[k].file, run[k].s, sent, legacy, cut, env', sum);
  }

  /** The four to seven bytes are refused, whatever else holds. */
  lemma HeaderPieceRefused(cut: nat, env: Env, sum: Checksum)
    requires 4 <= cut < 8 && cut <= env.readable
    ensures AfterOpen(HEADER[..cut], env, sum) == None
  {
    LoadHeaderPiece(HEADER[..cut], sum);
  }

  /** A headerless file reads back as what was written exactly if its first name does not make it look like one with
      a header. */
  lemma HeaderlessReadsBack(names: seq<Name>, sum: Checksum)
    requires AllShort(names) && names != []
    ensures var f := File(true, names, sum);
            Load(f, sum) == Names(true, names, |f|) <==> !MagicName(names[0])
  {
    var f := File(true, names, sum);
    LegacyMagic(names, sum);
    if !MagicName(names[0]) {
      FirstEntry(names, sum, Covered(names[0]));
      assert names[..|names|] == names;
      WholeIs(true, names, sum, |f|, |names|);
      LoadCut(f, true, names, sum, |names|, f);
    }
  }

  /** A headerless file whose first name has 17224 bytes, the first two being 0x53 and 0x46, is no longer
      read as what it is: unless the next four bytes are 1, 0, 0, 0 the store cannot be opened again. */
  lemma MagicNameRefused(name: Name, env: Env, sum: Checksum)
    requires MagicName(name) && name[2..6] != [1, 0, 0, 0] && env.readable >= 8
    ensures AllShort([name]) && AfterOpen(File(true, [name], sum), env, sum) == None
  {
    var f, e := File(true, [name], sum), Covered(name);
    FirstEntry([name], sum, e);
    FirstBytes(name, e);
    LegacyMagic([name], sum);
    assert f[4..8] == e[4..8] == e[2..][2..6];
    var g := Read(f, env);
    assert g[..4] == f[..4] && g[4..8] == f[4..8];
  }
}
