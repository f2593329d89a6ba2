/**
  Scanning a data file and recovering from a torn tail (src/fileops/data_file.cpp, and the commit rule of
  include/bitcask/format.hpp for atomic batches). The scan is given for any bytes; what it makes of a file
  that was cut anywhere while whole units were being appended is proved from that.
 */
module FoldRecovery {
  import opened Bytes
  import opened RecordFormat
  import opened PositionedWrites

  const CRC_SKIP_LIMIT: nat := 20

  // ---------------------------------------------------------------------------------------
  // The scan
  // ---------------------------------------------------------------------------------------

  /** A call of fn. */
  datatype Seen = Seen(rec: Rec, offset: nat, size: nat)

  /** The variables of the loop: until is not 0 inside the span that a batch header announced. */
  datatype Scan = Scan(offset: nat, until: nat, lve: nat, crcErrors: nat, seen: seq<Seen>)

  datatype Outcome = Done(lve: nat, seen: seq<Seen>) | FailedCrc | FailedShort

  datatype Turn = Halt(outcome: Outcome) | Go(scan: Scan)

  /** Past a record of the given size. Only behind a complete span, or outside any, does the valid end
      move; a record skipped for its checksum never moves it on its own. */
  function Advance(s: Scan, size: nat, skipped: bool): Turn {
    var offset := s.offset + size;
    if s.until != 0 then
      if offset > s.until then Halt(Done(s.lve, s.seen))
      else if offset == s.until then Go(s.(offset := offset, until := 0, lve := offset))
      else Go(s.(offset := offset))
    else if skipped then Go(s.(offset := offset))
    else Go(s.(offset := offset, lve := offset))
  }

  /** What stands at each offset of a file. */
  type View = nat -> Look

  function ViewOf(f: seq<byte>, sum: Checksum): View {
    (at: nat) => LookAt(f, at, sum)
  }

  /** Complete records have a size and end inside the file. */
  ghost predicate Sound(view: View, total: nat) {
    forall at: nat :: view(at).Damaged? || view(at).Found? ==>
      view(at).size >= HEADER_SIZE && at + view(at).size <= total
  }

  lemma ViewIsSound(f: seq<byte>, sum: Checksum)
    ensures Sound(ViewOf(f, sum), |f|)
  {
  }

  /** One turn of the loop, on a file of `total` bytes. */
  function Next(view: View, total: nat, s: Scan, tolerate: bool): Turn {
    match view(s.offset)
    case End => Halt(Done(s.lve, s.seen))
    case Short => Halt(FailedShort)
    case Damaged(size) =>
      if !tolerate || s.crcErrors + 1 > CRC_SKIP_LIMIT then Halt(FailedCrc)
      else Advance(s.(crcErrors := s.crcErrors + 1), size, true)
    case Found(rec, size) =>
      if rec.kind == BATCH_HEADER then
        if s.until != 0 then Halt(Done(s.lve, s.seen))
        else
          match DecodeBatch(rec.value)
          case None => Halt(Done(s.lve, s.seen))
          case Some(b) =>
            var until := (s.offset + size + b.span as int) % 0x1_0000_0000_0000_0000;
            if until > total then Halt(Done(s.lve, s.seen))
            else Advance(s.(until := until, seen := s.seen + [Seen(rec, s.offset, size)]), size, false)
      else Advance(s.(seen := s.seen + [Seen(rec, s.offset, size)]), size, false)
  }

  lemma NextMovesOn(view: View, total: nat, s: Scan, tolerate: bool)
    requires Sound(view, total)
    ensures Next(view, total, s, tolerate).Go? ==> s.offset < Next(view, total, s, tolerate).scan.offset <= total
  {
  }

  ghost function FoldFrom(view: View, total: nat, s: Scan, tolerate: bool): Outcome
    requires Sound(view, total)
    decreases total - s.offset, 1
  {
    NextMovesOn(view, total, s, tolerate);
    FoldAfter(view, total, s, Next(view, total, s, tolerate), tolerate)
  }

  ghost function FoldAfter(view: View, total: nat, s: Scan, turn: Turn, tolerate: bool): Outcome
    requires Sound(view, total) && (turn.Go? ==> s.offset < turn.scan.offset <= total)
    decreases total - s.offset, 0
  {
    match turn
    case Halt(outcome) => outcome
    case Go(next) => FoldFrom(view, total, next, tolerate)
  }

  /** fold from an offset: the records handed to fn, in order, and the end of the last valid unit. */
  ghost function Fold(f: seq<byte>, start: nat, tolerate: bool, sum: Checksum): Outcome {
    ViewIsSound(f, sum);
    FoldFrom(ViewOf(f, sum), |f|, Scan(start, 0, start, 0, []), tolerate)
  }

  lemma FoldHalts(view: View, total: nat, s: Scan, tolerate: bool, outcome: Outcome)
    requires Sound(view, total) && Next(view, total, s, tolerate) == Halt(outcome)
    ensures FoldFrom(view, total, s, tolerate) == outcome
  {
  }

  lemma FoldGoes(view: View, total: nat, s: Scan, tolerate: bool, next: Scan)
    requires Sound(view, total) && Next(view, total, s, tolerate) == Go(next)
    ensures FoldFrom(view, total, s, tolerate) == FoldFrom(view, total, next, tolerate)
  {
    NextMovesOn(view, total, s, tolerate);
  }

  // ---------------------------------------------------------------------------------------
  // Records in a row
  // ---------------------------------------------------------------------------------------

  ghost predicate AllWritable(recs: seq<Rec>) {
    forall i :: 0 <= i < |recs| ==> Writable(recs[i])
  }

  ghost predicate AllFoldable(recs: seq<Rec>) {
    forall i :: 0 <= i < |recs| ==> Foldable(recs[i])
  }

  ghost function RecsBytes(recs: seq<Rec>, sum: Checksum): seq<byte>
    requires AllWritable(recs)
    decreases |recs|, 1
  {
    if recs == [] then [] else RecsCons(recs[0], recs[1..], sum)
  }

  ghost function RecsCons(r: Rec, rest: seq<Rec>, sum: Checksum): seq<byte>
    requires Writable(r) && AllWritable(rest)
    decreases |rest| + 1, 0
  {
    RecBytes(r, sum) + RecsBytes(rest, sum)
  }

  /** The bytes that records take. */
  ghost function Span(recs: seq<Rec>): nat
    decreases |recs|, 1
  {
    if recs == [] then 0 else SpanCons(recs[0], recs[1..])
  }

  ghost function SpanCons(r: Rec, rest: seq<Rec>): nat
    decreases |rest| + 1, 0
  {
    Size(r) + Span(rest)
  }

  lemma {:induction false} RecsLength(recs: seq<Rec>, sum: Checksum)
    requires AllWritable(recs)
    ensures |RecsBytes(recs, sum)| == Span(recs)
    decreases |recs|
  {
    if recs != [] {
      RecsLength(recs[1..], sum);
      assert RecsBytes(recs, sum) == RecsCons(recs[0], recs[1..], sum);
      assert Span(recs) == SpanCons(recs[0], recs[1..]);
    }
  }

  /** What the scan finds where a record should be: the record if it is complete, nothing otherwise. */
  lemma RecordThere(f: seq<byte>, whole: seq<byte>, front: seq<byte>, r: Rec, sum: Checksum)
    requires Foldable(r) && f <= whole && front + RecBytes(r, sum) <= whole && |front| <= |f|
    ensures LookAt(f, |front|, sum) == if |f| < |front| + Size(r) then End else Found(r, Size(r))
  {
    var e := RecBytes(r, sum);
    assert (front + e)[|front|..] == e;
    if |f| < |front| + |e| {
      CutInside(f, whole, front, e);
      FindPart(f, |front|, r, e, sum);
    } else {
      NotCut(f, whole, front, e);
      FindWhole(f, |front|, r, e, sum);
    }
  }

  lemma CutInside(f: seq<byte>, whole: seq<byte>, front: seq<byte>, e: seq<byte>)
    requires f <= whole && front + e <= whole && |front| <= |f| < |front| + |e|
    ensures f[|front|..] <= e
  {
    var g := front + e;
    assert f == g[..|f|];
    assert f[|front|..] == g[|front|..][..|f| - |front|] == e[..|f| - |front|];
  }

  lemma NotCut(f: seq<byte>, whole: seq<byte>, front: seq<byte>, e: seq<byte>)
    requires f <= whole && front + e <= whole && |front| + |e| <= |f|
    ensures f[|front|..|front| + |e|] == e
  {
    var g := front + e;
    assert g == f[..|g|];
    assert f[|front|..|g|] == g[|front|..];
  }

  // ---------------------------------------------------------------------------------------
  // Units
  // ---------------------------------------------------------------------------------------

  /** What a writer appends: a record on its own, or a header and its members. */
  datatype Unit = Single(rec: Rec) | Batch(tstamp: uint64, ord: uint64, members: seq<Rec>)

  ghost predicate Plain(r: Rec) {
    Writable(r) && r.kind != BATCH_HEADER
  }

  ghost predicate UnitOk(u: Unit) {
    match u
    case Single(rec) => Plain(rec)
    case Batch(_, _, members) =>
      && 1 <= |members| < 0x1_0000_0000 && Span(members) < 0x1_0000_0000_0000_0000
      && forall i :: 0 <= i < |members| ==> Plain(members[i])
  }

  ghost function HeaderOf(u: Unit): Rec
    requires u.Batch? && UnitOk(u)
  {
    Rec(BATCH_HEADER, u.tstamp, u.ord, [], BatchValue(BatchInfo(|u.members|, Span(u.members))))
  }

  /** The records of a unit in file order. */
  ghost function Records(u: Unit): (recs: seq<Rec>)
    requires UnitOk(u)
    ensures AllWritable(recs) && recs != []
  {
    match u
    case Single(rec) => [rec]
    case Batch(_, _, members) => [HeaderOf(u)] + members
  }

  ghost predicate UnitsOk(units: seq<Unit>) {
    forall i :: 0 <= i < |units| ==> UnitOk(units[i])
  }

  /** No record is too large for the loop. */
  ghost predicate UnitFits(u: Unit) {
    UnitOk(u) && AllFoldable(Records(u))
  }

  ghost predicate UnitsFit(units: seq<Unit>) {
    forall i :: 0 <= i < |units| ==> UnitFits(units[i])
  }

  ghost function File(units: seq<Unit>, sum: Checksum): seq<byte>
    requires UnitsOk(units)
    decreases |units|, 1
  {
    if units == [] then [] else FileSnoc(units, sum)
  }

  ghost function FileSnoc(units: seq<Unit>, sum: Checksum): seq<byte>
    requires UnitsOk(units) && units != []
    decreases |units|, 0
  {
    var n := |units| - 1;
    assert UnitsOk(units[..n]);
    File(units[..n], sum) + RecsBytes(Records(units[n]), sum)
  }

  lemma FileNext(units: seq<Unit>, sum: Checksum, i: nat)
    requires UnitsOk(units) && i < |units|
    ensures File(units[..i + 1], sum) == File(units[..i], sum) + RecsBytes(Records(units[i]), sum)
  {
    assert units[..i + 1][..i] == units[..i];
  }

  lemma {:induction false} FilePrefix(units: seq<Unit>, sum: Checksum, i: nat)
    requires UnitsOk(units) && i <= |units|
    ensures File(units[..i], sum) <= File(units, sum)
    decreases |units| - i
  {
    if i < |units| {
      FileNext(units, sum, i);
      FilePrefix(units, sum, i + 1);
    } else {
      assert units[..i] == units;
    }
  }

  /** The units that lie completely inside the first len bytes. */
  ghost function Whole(units: seq<Unit>, sum: Checksum, len: nat): (k: nat)
    requires UnitsOk(units)
    ensures k <= |units|
  {
    WholeUpTo(units, sum, len, |units|)
  }

  ghost function WholeUpTo(units: seq<Unit>, sum: Checksum, len: nat, n: nat): (k: nat)
    requires UnitsOk(units) && n <= |units|
    ensures k <= n
    decreases n
  {
    if n == 0 || |File(units[..n], sum)| <= len then n else WholeUpTo(units, sum, len, n - 1)
  }

  lemma Shorter(units: seq<Unit>, sum: Checksum, i: nat, n: nat)
    requires UnitsOk(units) && i <= n <= |units|
    ensures |File(units[..i], sum)| <= |File(units[..n], sum)|
  {
    assert units[..n][..i] == units[..i];
    FilePrefix(units[..n], sum, i);
  }

  lemma {:induction false} WholeIs(units: seq<Unit>, sum: Checksum, len: nat, k: nat, n: nat)
    requires UnitsOk(units) && k <= n <= |units|
    requires |File(units[..k], sum)| <= len
    requires k < n ==> len < |File(units[..k + 1], sum)|
    ensures WholeUpTo(units, sum, len, n) == k
    decreases n
  {
    if k < n {
      Shorter(units, sum, k + 1, n);
      WholeIs(units, sum, len, k, n - 1);
    }
  }

  lemma {:induction false} WholeExact(units: seq<Unit>, sum: Checksum, len: nat, n: nat, k: nat)
    requires UnitsOk(units) && n <= |units| && k == WholeUpTo(units, sum, len, n)
    ensures |File(units[..k], sum)| <= len && (k < n ==> len < |File(units[..k + 1], sum)|)
    decreases n
  {
    if k < n {
      WholeExact(units, sum, len, n - 1, k);
    } else if n == 0 {
      assert units[..0] == [];
    }
  }

  // ---------------------------------------------------------------------------------------
  // Scanning a file that was cut
  // ---------------------------------------------------------------------------------------

  const OFFSETS: nat := 0x1_0000_0000_0000_0000

  /** The calls of fn for records in a row. */
  ghost function SeenOf(recs: seq<Rec>, at: nat): seq<Seen>
    decreases |recs|, 1
  {
    if recs == [] then [] else SeenCons(recs[0], recs[1..], at)
  }

  ghost function SeenCons(r: Rec, rest: seq<Rec>, at: nat): seq<Seen>
    decreases |rest| + 1, 0
  {
    [Seen(r, at, Size(r))] + SeenOf(rest, at + Size(r))
  }

  ghost function SeenUnits(units: seq<Unit>, at: nat): seq<Seen>
    requires UnitsOk(units)
    decreases |units|, 1
  {
    if units == [] then [] else SeenFirst(units, Records(units[0]), at)
  }

  ghost function SeenFirst(units: seq<Unit>, recs: seq<Rec>, at: nat): seq<Seen>
    requires UnitsOk(units) && units != []
    decreases |units|, 0
  {
    SeenOf(recs, at) + SeenUnits(units[1..], at + Span(recs))
  }

  /** A scan between two units. */
  function Between(at: nat, crcErrors: nat, seen: seq<Seen>): Scan {
    Scan(at, 0, at, crcErrors, seen)
  }

  /** What the view shows where a record was written: the record if it is complete, nothing otherwise. */
  ghost predicate Shows(view: View, total: nat, at: nat, r: Rec) {
    view(at) == if total < at + Size(r) then End else Found(r, Size(r))
  }

  lemma ViewThere(f: seq<byte>, whole: seq<byte>, front: seq<byte>, r: Rec, view: View, sum: Checksum)
    requires Foldable(r) && f <= whole && front + RecBytes(r, sum) <= whole && |front| <= |f|
    requires view == ViewOf(f, sum)
    ensures Shows(view, |f|, |front|, r)
  {
    RecordThere(f, whole, front, r, sum);
  }

  lemma FoldSingle(view: View, total: nat, at: nat, r: Rec, ce: nat, seen: seq<Seen>, tol: bool)
    requires Sound(view, total) && Shows(view, total, at, r) && r.kind != BATCH_HEADER
    ensures FoldFrom(view, total, Between(at, ce, seen), tol)
         == if total < at + Size(r) then Done(at, seen)
            else FoldFrom(view, total, Between(at + Size(r), ce, seen + [Seen(r, at, Size(r))]), tol)
  {
    var s := Between(at, ce, seen);
    if total < at + Size(r) {
      FoldHalts(view, total, s, tol, Done(at, seen));
    } else {
      FoldGoes(view, total, s, tol, Between(at + Size(r), ce, seen + [Seen(r, at, Size(r))]));
    }
  }

  lemma FoldHeader(view: View, total: nat, at: nat, h: Rec, b: BatchInfo, until: nat, ce: nat, seen: seq<Seen>,
                   tol: bool)
    requires Sound(view, total) && Shows(view, total, at, h)
    requires h.kind == BATCH_HEADER && DecodeBatch(h.value) == Some(b) && b.span > 0
    requires until == at + Size(h) + b.span < OFFSETS
    ensures FoldFrom(view, total, Between(at, ce, seen), tol)
         == if total < until then Done(at, seen)
            else FoldFrom(view, total, Scan(at + Size(h), until, at, ce, seen + [Seen(h, at, Size(h))]), tol)
  {
    var s := Between(at, ce, seen);
    if total < until {
      FoldHalts(view, total, s, tol, Done(at, seen));
    } else {
      FoldGoes(view, total, s, tol, Scan(at + Size(h), until, at, ce, seen + [Seen(h, at, Size(h))]));
    }
  }

  /** The scan behind a member of a batch. */
  ghost function AfterMember(s: Scan, r: Rec): Scan {
    var seen := s.seen + [Seen(r, s.offset, Size(r))];
    if s.offset + Size(r) == s.until then Between(s.until, s.crcErrors, seen)
    else s.(offset := s.offset + Size(r), seen := seen)
  }

  lemma FoldMember(view: View, total: nat, r: Rec, s: Scan, tol: bool)
    requires Sound(view, total) && Shows(view, total, s.offset, r) && r.kind != BATCH_HEADER
    requires s.until != 0 && s.offset + Size(r) <= s.until <= total
    ensures FoldFrom(view, total, s, tol) == FoldFrom(view, total, AfterMember(s, r), tol)
  {
    FoldGoes(view, total, s, tol, AfterMember(s, r));
  }

  /** The view shows every record of a unit that begins inside the file. */
  ghost predicate ShowsAll(view: View, total: nat, at: nat, recs: seq<Rec>)
    decreases |recs|, 1
  {
    recs == [] || at > total || ShowsFirst(view, total, at, recs[0], recs[1..])
  }

  ghost predicate ShowsFirst(view: View, total: nat, at: nat, r: Rec, rest: seq<Rec>)
    decreases |rest| + 1, 0
  {
    Shows(view, total, at, r) && ShowsAll(view, total, at + Size(r), rest)
  }

  lemma {:induction false} UnitShown(f: seq<byte>, whole: seq<byte>, front: seq<byte>, recs: seq<Rec>, view: View,
                                     sum: Checksum)
    requires AllFoldable(recs) && f <= whole && front + RecsBytes(recs, sum) <= whole && view == ViewOf(f, sum)
    ensures ShowsAll(view, |f|, |front|, recs)
    decreases |recs|
  {
    if recs != [] && |front| <= |f| {
      var r, rest := recs[0], recs[1..];
      var e := RecBytes(r, sum);
      assert RecsBytes(recs, sum) == RecsCons(r, rest, sum);
      assert front + (e + RecsBytes(rest, sum)) == (front + e) + RecsBytes(rest, sum);
      ViewThere(f, whole, front, r, view, sum);
      UnitShown(f, whole, front + e, rest, view, sum);
    }
  }

  lemma Joined(a: seq<Seen>, b: Seen, c: seq<Seen>)
    ensures (a + [b]) + c == a + ([b] + c)
  {
  }

  lemma {:induction false} FoldMembers(view: View, total: nat, r: Rec, rest: seq<Rec>, s: Scan, tol: bool)
    requires Sound(view, total) && ShowsFirst(view, total, s.offset, r, rest)
    requires s.until == s.offset + SpanCons(r, rest) <= total
    requires r.kind != BATCH_HEADER && forall i :: 0 <= i < |rest| ==> rest[i].kind != BATCH_HEADER
    ensures FoldFrom(view, total, s, tol)
         == FoldFrom(view, total, Between(s.until, s.crcErrors, s.seen + SeenCons(r, rest, s.offset)), tol)
    decreases |rest|
  {
    FoldMember(view, total, r, s, tol);
    var next := AfterMember(s, r);
    Joined(s.seen, Seen(r, s.offset, Size(r)), SeenOf(rest, s.offset + Size(r)));
    if rest == [] {
      assert next.seen + [] == next.seen;
    } else {
      assert Span(rest) == SpanCons(rest[0], rest[1..]);
      FoldMembers(view, total, rest[0], rest[1..], next, tol);
    }
  }

  lemma FoldBatch(view: View, total: nat, at: nat, h: Rec, b: BatchInfo, members: seq<Rec>, ce: nat, seen: seq<Seen>,
                  tol: bool)
    requires Sound(view, total) && ShowsFirst(view, total, at, h, members) && at <= total
    requires h.kind == BATCH_HEADER && DecodeBatch(h.value) == Some(b) && b.span as int == Span(members)
    requires members != [] && at + SpanCons(h, members) < OFFSETS
    requires forall i :: 0 <= i < |members| ==> members[i].kind != BATCH_HEADER
    ensures FoldFrom(view, total, Between(at, ce, seen), tol)
         == if total < at + SpanCons(h, members) then Done(at, seen)
            else FoldFrom(view, total, Between(at + SpanCons(h, members), ce, seen + SeenCons(h, members, at)), tol)
  {
    var until := at + SpanCons(h, members);
    assert Span(members) == SpanCons(members[0], members[1..]);
    FoldHeader(view, total, at, h, b, until, ce, seen, tol);
    if until <= total {
      var first := Seen(h, at, Size(h));
      FoldMembers(view, total, members[0], members[1..], Scan(at + Size(h), until, at, ce, seen + [first]), tol);
      Joined(seen, first, SeenOf(members, at + Size(h)));
    }
  }

  /** What a unit with members consists of. */
  lemma BatchRecords(u: Unit) returns (h: Rec, b: BatchInfo)
    requires u.Batch? && UnitOk(u)
    ensures h.kind == BATCH_HEADER && DecodeBatch(h.value) == Some(b) && b.span as int == Span(u.members)
    ensures Records(u)[0] == h && Records(u)[1..] == u.members
  {
    h := HeaderOf(u);
    b := BatchInfo(|u.members|, Span(u.members));
    assert Span(u.members) == SpanCons(u.members[0], u.members[1..]);
    DecodeBatchBack(b);
  }

  /** One unit: all of it, or none of it. */
  lemma FoldUnit(view: View, total: nat, at: nat, u: Unit, r: Rec, rest: seq<Rec>, ce: nat, seen: seq<Seen>, tol: bool)
    requires UnitOk(u) && r == Records(u)[0] && rest == Records(u)[1..]
    requires Sound(view, total) && ShowsFirst(view, total, at, r, rest)
    requires at <= total && at + SpanCons(r, rest) < OFFSETS
    ensures FoldFrom(view, total, Between(at, ce, seen), tol)
         == if total < at + SpanCons(r, rest) then Done(at, seen)
            else FoldFrom(view, total, Between(at + SpanCons(r, rest), ce, seen + SeenCons(r, rest, at)), tol)
  {
    if u.Single? {
      assert rest == [];
      var one := [Seen(r, at, Size(r))];
      assert SeenCons(r, rest, at) == one + [] == one && SpanCons(r, rest) == Size(r);
      FoldSingle(view, total, at, r, ce, seen, tol);
    } else {
      var h, b := BatchRecords(u);
      FoldBatch(view, total, at, h, b, u.members, ce, seen, tol);
    }
  }

  // ---------------------------------------------------------------------------------------
  // The theorem
  // ---------------------------------------------------------------------------------------

  lemma UnitPlaced(whole: seq<byte>, front: seq<byte>, units: seq<Unit>, i: nat, recs: seq<Rec>, sum: Checksum)
    returns (next: seq<byte>)
    requires UnitsOk(units) && i < |units| && whole == File(units, sum)
    requires front == File(units[..i], sum) && recs == Records(units[i])
    ensures next == File(units[..i + 1], sum) == front + RecsBytes(recs, sum) && next <= whole
    ensures |next| == |front| + Span(recs)
  {
    FileNext(units, sum, i);
    FilePrefix(units, sum, i + 1);
    RecsLength(recs, sum);
    next := front + RecsBytes(recs, sum);
  }

  lemma FirstOfPart<T>(s: seq<T>, i: nat, k: nat, part: seq<T>)
    requires i < k <= |s| && part == s[i..k]
    ensures part[0] == s[i] && part[1..] == s[i + 1..k]
  {
  }

  lemma SeenUnitsNext(units: seq<Unit>, i: nat, k: nat, at: nat, recs: seq<Rec>)
    requires UnitsOk(units) && i < k <= |units| && recs == Records(units[i])
    ensures SeenUnits(units[i..k], at) == SeenOf(recs, at) + SeenUnits(units[i + 1..k], at + Span(recs))
  {
    var part := units[i..k];
    FirstOfPart(units, i, k, part);
    assert SeenUnits(part, at) == SeenFirst(part, recs, at);
  }

  /** What FoldCut claims from unit i on. */
  ghost predicate Claim(o: Outcome, at: nat, units: seq<Unit>, i: nat, k: nat, seen: seq<Seen>, sum: Checksum)
    requires UnitsOk(units)
  {
    i <= k <= |units| && o == Done(|File(units[..k], sum)|, seen + SeenUnits(units[i..k], at))
  }

  lemma ClaimHere(o: Outcome, at: nat, units: seq<Unit>, i: nat, seen: seq<Seen>, sum: Checksum)
    requires UnitsOk(units) && i <= |units| && at == |File(units[..i], sum)| && o == Done(at, seen)
    ensures Claim(o, at, units, i, i, seen, sum)
  {
    assert units[i..i] == [] && seen + [] == seen;
  }

  lemma ClaimLater(o: Outcome, at: nat, units: seq<Unit>, i: nat, k: nat, recs: seq<Rec>, seen: seq<Seen>,
                   mine: seq<Seen>,
                   end: nat, sum: Checksum)
    requires UnitsOk(units) && i < |units| && recs == Records(units[i]) && mine == SeenOf(recs, at)
    requires end == at + Span(recs) && Claim(o, end, units, i + 1, k, seen + mine, sum)
    ensures Claim(o, at, units, i, k, seen, sum)
  {
    SeenUnitsNext(units, i, k, at, recs);
    Rejoined(seen, mine, SeenUnits(units[i + 1..k], end));
  }

  lemma Rejoined(a: seq<Seen>, b: seq<Seen>, c: seq<Seen>)
    ensures (a + b) + c == a + (b + c)
  {
  }

  lemma FirstOfRecords(view: View, total: nat, at: nat, recs: seq<Rec>, r: Rec, rest: seq<Rec>)
    requires recs != [] && r == recs[0] && rest == recs[1..] && at <= total && ShowsAll(view, total, at, recs)
    ensures Span(recs) == SpanCons(r, rest) && SeenOf(recs, at) == SeenCons(r, rest, at)
    ensures ShowsFirst(view, total, at, r, rest)
  {
  }

  /** The scan at unit i of a file that was cut. */
  lemma FoldThere(f: seq<byte>, whole: seq<byte>, front: seq<byte>, next: seq<byte>, u: Unit, recs: seq<Rec>, ce: nat,
                  seen: seq<Seen>, view: View, tol: bool, sum: Checksum)
    requires UnitFits(u) && recs == Records(u) && next == front + RecsBytes(recs, sum) && |next| == |front| + Span(recs)
    requires f <= whole && next <= whole && |whole| < OFFSETS && |front| <= |f|
    requires view == ViewOf(f, sum) && Sound(view, |f|)
    ensures FoldFrom(view, |f|, Between(|front|, ce, seen), tol)
         == if |f| < |next| then Done(|front|, seen)
            else FoldFrom(view, |f|, Between(|next|, ce, seen + SeenOf(recs, |front|)), tol)
  {
    var r, rest := recs[0], recs[1..];
    UnitShown(f, whole, front, recs, view, sum);
    FirstOfRecords(view, |f|, |front|, recs, r, rest);
    FoldUnit(view, |f|, |front|, u, r, rest, ce, seen, tol);
  }

  /** The scan has come to where the complete units end. */
  lemma FoldEnds(f: seq<byte>, units: seq<Unit>, i: nat, k: nat, at: nat, seen: seq<Seen>, sum: Checksum, o: Outcome)
    requires UnitsOk(units) && i <= |units| && at == |File(units[..i], sum)| <= |f| && k == Whole(units, sum, |f|)
    requires i < |units| ==> |f| < |File(units[..i + 1], sum)|
    requires o == Done(at, seen)
    ensures Claim(o, at, units, i, k, seen, sum)
  {
    WholeIs(units, sum, |f|, i, |units|);
    ClaimHere(o, at, units, i, seen, sum);
  }

  lemma FoldAtEnd(f: seq<byte>, ce: nat, seen: seq<Seen>, view: View, tol: bool, sum: Checksum)
    requires view == ViewOf(f, sum) && Sound(view, |f|)
    ensures FoldFrom(view, |f|, Between(|f|, ce, seen), tol) == Done(|f|, seen)
  {
    FoldHalts(view, |f|, Between(|f|, ce, seen), tol, Done(|f|, seen));
  }

  lemma {:induction false} FoldCut(f: seq<byte>, whole: seq<byte>, front: seq<byte>, units: seq<Unit>, i: nat, k: nat,
                                   ce: nat, seen: seq<Seen>, view: View, tol: bool, sum: Checksum, o: Outcome)
    requires UnitsFit(units) && i <= |units| && whole == File(units, sum) && f <= whole && |whole| < OFFSETS
    requires front == File(units[..i], sum) && |front| <= |f| && k == Whole(units, sum, |f|)
    requires view == ViewOf(f, sum) && Sound(view, |f|)
    requires o == FoldFrom(view, |f|, Between(|front|, ce, seen), tol)
    ensures Claim(o, |front|, units, i, k, seen, sum)
    decreases |units| - i
  {
    if i == |units| {
      assert units[..i] == units;
      FoldAtEnd(f, ce, seen, view, tol, sum);
      FoldEnds(f, units, i, k, |front|, seen, sum, o);
    } else {
      var u, recs := units[i], Records(units[i]);
      var next := UnitPlaced(whole, front, units, i, recs, sum);
      FoldThere(f, whole, front, next, u, recs, ce, seen, view, tol, sum);
      if |f| < |next| {
        FoldEnds(f, units, i, k, |front|, seen, sum, o);
      } else {
        var mine := SeenOf(recs, |front|);
        FoldCut(f, whole, next, units, i + 1, k, ce, seen + mine, view, tol, sum, o);
        ClaimLater(o, |front|, units, i, k, recs, seen, mine, |next|, sum);
      }
    }
  }

  /** The commit rule. However a file of whole units is cut, a scan of what is left hands over exactly the
      records of the units that are complete, in order, and its valid end is where they end: of a batch
      either all or nothing. */
  lemma CutFold(f: seq<byte>, units: seq<Unit>, k: nat, tol: bool, sum: Checksum)
    requires UnitsFit(units) && f <= File(units, sum) && |File(units, sum)| < OFFSETS && k == Whole(units, sum, |f|)
    ensures Fold(f, 0, tol, sum) == Done(|File(units[..k], sum)|, SeenUnits(units[..k], 0))
    ensures File(units[..k], sum) <= f
    ensures k < |units| ==> |f| < |File(units[..k + 1], sum)|
  {
    FoldWhole(f, units, k, tol, sum);
    FilePrefix(units, sum, k);
    WholeExact(units, sum, |f|, |units|, k);
  }

  lemma FoldWhole(f: seq<byte>, units: seq<Unit>, k: nat, tol: bool, sum: Checksum)
    requires UnitsFit(units) && f <= File(units, sum) && |File(units, sum)| < OFFSETS && k == Whole(units, sum, |f|)
    ensures Fold(f, 0, tol, sum) == Done(|File(units[..k], sum)|, SeenUnits(units[..k], 0))
  {
    assert units[..0] == [];
    ViewIsSound(f, sum);
    FoldCut(f, File(units, sum), [], units, 0, k, 0, [], ViewOf(f, sum), tol, sum, Fold(f, 0, tol, sum));
    assert units[0..k] == units[..k] && [] + SeenUnits(units[..k], 0) == SeenUnits(units[..k], 0);
  }

  // ---------------------------------------------------------------------------------------
  // Records that are too large
  // ---------------------------------------------------------------------------------------

  /** The view shows every record up to one that is too large, which reads as cut short. */
  ghost predicate LargeShown(view: View, total: nat, at: nat, recs: seq<Rec>)
    decreases |recs|, 1
  {
    recs != [] && LargeBehind(view, total, at, recs[0], recs[1..])
  }

  ghost predicate LargeBehind(view: View, total: nat, at: nat, r: Rec, rest: seq<Rec>)
    decreases |rest| + 1, 0
  {
    if Foldable(r) then at + Size(r) <= total && Shows(view, total, at, r)
                    && LargeShown(view, total, at + Size(r), rest)
    else view(at) == Short
  }

  lemma LargeHere(f: seq<byte>, front: seq<byte>, r: Rec, view: View, sum: Checksum)
    requires Writable(r) && !Foldable(r) && front + RecBytes(r, sum) <= f && view == ViewOf(f, sum)
    ensures view(|front|) == Short
  {
    var e := RecBytes(r, sum);
    assert (front + e)[|front|..] == e;
    NotCut(f, f, front, e);
    TooLargeToFold(f, |front|, r, e, sum);
  }

  lemma LargeLater(recs: seq<Rec>)
    requires AllWritable(recs) && !AllFoldable(recs) && Foldable(recs[0])
    ensures recs[1..] != [] && AllWritable(recs[1..]) && !AllFoldable(recs[1..])
  {
    var i :| 0 <= i < |recs| && !Foldable(recs[i]);
    assert recs[1..][i - 1] == recs[i];
  }

  /** The bytes of the first record and of the others. */
  lemma FrontOfRest(f: seq<byte>, front: seq<byte>, r: Rec, rest: seq<Rec>, e: seq<byte>, others: seq<byte>,
                    sum: Checksum)
    requires Writable(r) && AllWritable(rest) && e == RecBytes(r, sum) && others == RecsBytes(rest, sum)
    requires front + (e + others) <= f
    ensures front + e <= f && (front + e) + others <= f && |front + e| == |front| + Size(r)
  {
    assert front + (e + others) == (front + e) + others;
  }

  lemma {:induction false} LargeThere(f: seq<byte>, front: seq<byte>, recs: seq<Rec>, view: View, sum: Checksum)
    requires AllWritable(recs) && !AllFoldable(recs) && front + RecsBytes(recs, sum) <= f && view == ViewOf(f, sum)
    ensures LargeShown(view, |f|, |front|, recs)
    decreases |recs|, 0
  {
    var r, rest := recs[0], recs[1..];
    var e, others := RecBytes(r, sum), RecsBytes(rest, sum);
    assert RecsBytes(recs, sum) == e + others;
    FrontOfRest(f, front, r, rest, e, others, sum);
    if Foldable(r) {
      LargeLater(recs);
      LargeFurther(f, front, r, rest, e, view, sum);
    } else {
      LargeHere(f, front, r, view, sum);
    }
  }

  lemma {:induction false} LargeFurther(f: seq<byte>, front: seq<byte>, r: Rec, rest: seq<Rec>, e: seq<byte>,
                                        view: View, sum: Checksum)
    requires Foldable(r) && AllWritable(rest) && !AllFoldable(rest) && e == RecBytes(r, sum)
    requires front + e <= f && (front + e) + RecsBytes(rest, sum) <= f && view == ViewOf(f, sum)
    ensures LargeBehind(view, |f|, |front|, r, rest)
    decreases |rest|, 1
  {
    ViewThere(f, f, front, r, view, sum);
    LargeThere(f, front + e, rest, view, sum);
  }

  /** Members of a batch up to one that is too large. */
  lemma {:induction false} FoldToLarge(view: View, total: nat, recs: seq<Rec>, s: Scan, tol: bool)
    requires Sound(view, total) && LargeShown(view, total, s.offset, recs)
    requires s.until == s.offset + Span(recs) <= total && s.until != 0
    requires forall i :: 0 <= i < |recs| ==> recs[i].kind != BATCH_HEADER
    ensures FoldFrom(view, total, s, tol) == FailedShort
    decreases |recs|
  {
    var r, rest := recs[0], recs[1..];
    assert Span(recs) == SpanCons(r, rest);
    assert LargeBehind(view, total, s.offset, r, rest);
    if Foldable(r) {
      assert LargeShown(view, total, s.offset + Size(r), rest);
      assert Span(rest) == SpanCons(rest[0], rest[1..]);
      FoldMember(view, total, r, s, tol);
      FoldToLarge(view, total, rest, AfterMember(s, r), tol);
    } else {
      FoldHalts(view, total, s, tol, FailedShort);
    }
  }

  lemma FoldLargeUnit(view: View, total: nat, at: nat, u: Unit, ce: nat, seen: seq<Seen>, tol: bool)
    requires UnitOk(u) && Sound(view, total) && LargeShown(view, total, at, Records(u))
    requires at + Span(Records(u)) <= total < OFFSETS
    ensures FoldFrom(view, total, Between(at, ce, seen), tol) == FailedShort
  {
    var recs := Records(u);
    assert Span(recs) == SpanCons(recs[0], recs[1..]);
    assert LargeBehind(view, total, at, recs[0], recs[1..]);
    if u.Single? {
      assert !LargeShown(view, total, at + Size(recs[0]), recs[1..]);
      FoldHalts(view, total, Between(at, ce, seen), tol, FailedShort);
    } else {
      var h, b := BatchRecords(u);
      assert Span(u.members) == SpanCons(u.members[0], u.members[1..]);
      var until := at + Size(h) + Span(u.members);
      FoldHeader(view, total, at, h, b, until, ce, seen, tol);
      FoldToLarge(view, total, u.members, Scan(at + Size(h), until, at, ce, seen + [Seen(h, at, Size(h))]), tol);
    }
  }

  lemma LargeUnitThere(f: seq<byte>, front: seq<byte>, next: seq<byte>, u: Unit, recs: seq<Rec>, ce: nat,
                       seen: seq<Seen>,
                       view: View, tol: bool, sum: Checksum)
    requires UnitOk(u) && !UnitFits(u) && recs == Records(u)
    requires next == front + RecsBytes(recs, sum) && |next| == |front| + Span(recs) && next <= f && |f| < OFFSETS
    requires view == ViewOf(f, sum) && Sound(view, |f|)
    ensures FoldFrom(view, |f|, Between(|front|, ce, seen), tol) == FailedShort
  {
    LargeThere(f, front, recs, view, sum);
    FoldLargeUnit(view, |f|, |front|, u, ce, seen, tol);
  }

  lemma UnitInside(f: seq<byte>, whole: seq<byte>, front: seq<byte>, units: seq<Unit>, i: nat, recs: seq<Rec>,
                   sum: Checksum)
    returns (next: seq<byte>)
    requires UnitsOk(units) && i < |units| && whole == File(units, sum) && whole <= f
    requires front == File(units[..i], sum) && recs == Records(units[i])
    ensures next == File(units[..i + 1], sum) == front + RecsBytes(recs, sum) && next <= f
    ensures |next| == |front| + Span(recs)
  {
    next := UnitPlaced(whole, front, units, i, recs, sum);
  }

  /** A unit is passed whole or stops the scan. */
  lemma PassOrStop(f: seq<byte>, front: seq<byte>, next: seq<byte>, u: Unit, recs: seq<Rec>, ce: nat, seen: seq<Seen>,
                   view: View, tol: bool, sum: Checksum, o: Outcome)
    requires UnitOk(u) && recs == Records(u)
    requires next == front + RecsBytes(recs, sum) && |next| == |front| + Span(recs) && next <= f && |f| < OFFSETS
    requires view == ViewOf(f, sum) && Sound(view, |f|)
    requires o == FoldFrom(view, |f|, Between(|front|, ce, seen), tol)
    ensures if UnitFits(u) then o == FoldFrom(view, |f|, Between(|next|, ce, seen + SeenOf(recs, |front|)), tol)
            else o == FailedShort
  {
    if UnitFits(u) {
      FoldThere(f, f, front, next, u, recs, ce, seen, view, tol, sum);
    } else {
      LargeUnitThere(f, front, next, u, recs, ce, seen, view, tol, sum);
    }
  }

  /** Behind i units that fit, the scan goes on. */
  lemma {:induction false} ScanReaches(f: seq<byte>, whole: seq<byte>, units: seq<Unit>, i: nat, view: View, tol: bool,
                                       sum: Checksum, o: Outcome) returns (front: seq<byte>, seen: seq<Seen>)
    requires UnitsOk(units) && i <= |units| && forall j :: 0 <= j < i ==> UnitFits(units[j])
    requires whole == File(units, sum) && whole <= f && |f| < OFFSETS
    requires view == ViewOf(f, sum) && Sound(view, |f|) && o == FoldFrom(view, |f|, Between(0, 0, []), tol)
    ensures front == File(units[..i], sum) && o == FoldFrom(view, |f|, Between(|front|, 0, seen), tol)
    decreases i
  {
    if i == 0 {
      front, seen := [], [];
      assert units[..0] == [];
    } else {
      var before, calls := ScanReaches(f, whole, units, i - 1, view, tol, sum, o);
      var recs := Records(units[i - 1]);
      front := UnitInside(f, whole, before, units, i - 1, recs, sum);
      PassOrStop(f, before, front, units[i - 1], recs, 0, calls, view, tol, sum, o);
      seen := calls + SeenOf(recs, |before|);
    }
  }

  lemma {:induction false} FirstLarge(units: seq<Unit>, j: nat) returns (i: nat)
    requires UnitsOk(units) && j < |units| && !UnitFits(units[j])
    ensures i < |units| && !UnitFits(units[i]) && forall k :: 0 <= k < i ==> UnitFits(units[k])
    decreases j
  {
    i := j;
    if m: nat :| m < j && !UnitFits(units[m]) {
      i := FirstLarge(units, m);
    }
  }

  /** The sizes are added up in 32 bits: behind any units, a record of 2^32 bytes or more, which its size fields
      allow and a write accepts, alone or in a batch, makes the whole scan fail, whatever stands behind it. */
  lemma LargeRecordStopsScan(f: seq<byte>, units: seq<Unit>, tol: bool, sum: Checksum)
    requires UnitsOk(units) && !UnitsFit(units) && File(units, sum) <= f && |f| < OFFSETS
    ensures Fold(f, 0, tol, sum) == FailedShort
  {
    ViewIsSound(f, sum);
    var j :| 0 <= j < |units| && !UnitFits(units[j]);
    var i := FirstLarge(units, j);
    var whole, view, o := File(units, sum), ViewOf(f, sum), Fold(f, 0, tol, sum);
    var front, seen := ScanReaches(f, whole, units, i, view, tol, sum, o);
    var recs := Records(units[i]);
    var next := UnitInside(f, whole, front, units, i, recs, sum);
    PassOrStop(f, front, next, units[i], recs, 0, seen, view, tol, sum, o);
  }

  /** Whatever was written can be scanned exactly if no record is that large. */
  lemma ScannedExactly(units: seq<Unit>, tol: bool, sum: Checksum)
    requires UnitsOk(units) && |File(units, sum)| < OFFSETS
    ensures Fold(File(units, sum), 0, tol, sum) == Done(|File(units, sum)|, SeenUnits(units, 0)) <==> UnitsFit(units)
    ensures !UnitsFit(units) ==> Fold(File(units, sum), 0, tol, sum) == FailedShort
  {
    var f := File(units, sum);
    if UnitsFit(units) {
      assert units[..|units|] == units;
      WholeIs(units, sum, |f|, |units|, |units|);
      FoldWhole(f, units, |units|, tol, sum);
    } else {
      LargeRecordStopsScan(f, units, tol, sum);
    }
  }

  // ---------------------------------------------------------------------------------------
  // Every run
  // ---------------------------------------------------------------------------------------

  /** A file and the units that were handed to it and not cut off since, the last one perhaps in part. */
  datatype World = World(file: seq<byte>, units: seq<Unit>)

  datatype Event =
    | Append(u: Unit, landed: nat)                      // of the unit, `landed` bytes reach the disk
    | Cut(len: nat)                                     // a crash keeps the first len bytes
    | Recover                                           // scan and truncate to the valid end

  ghost predicate Allowed(w: World, ev: Event, sum: Checksum)
    requires UnitsFit(w.units)
  {
    match ev
    case Append(u, _) => UnitFits(u) && w.file == File(w.units, sum)
    case Cut(len) => len <= |w.file|
    case Recover => |File(w.units, sum)| < OFFSETS
  }

  /** What recovery leaves, from nothing but the bytes: the file cut where the scan's valid end lies. */
  ghost function Truncated(f: seq<byte>, sum: Checksum): seq<byte> {
    match Fold(f, 0, true, sum)
    case Done(lve, _) => UpTo(f, lve)
    case _ => f
  }

  ghost predicate Steps(w: World, ev: Event, t: World, sum: Checksum)
    requires UnitsFit(w.units) && Allowed(w, ev, sum)
  {
    match ev
    case Append(u, landed) => t == World(w.file + UpTo(RecsBytes(Records(u), sum), landed), w.units + [u])
    case Cut(len) => t == World(w.file[..len], w.units)
    case Recover => t == World(Truncated(w.file, sum), w.units[..Whole(w.units, sum, |w.file|)])
  }

  ghost predicate Inv(w: World, sum: Checksum) {
    UnitsFit(w.units) && w.file <= File(w.units, sum)
  }

  lemma AppendKeeps(w: World, u: Unit, landed: nat, e: seq<byte>, all: seq<Unit>, sum: Checksum)
    requires UnitsFit(w.units) && UnitFits(u) && w.file == File(w.units, sum)
    requires e == RecsBytes(Records(u), sum) && all == w.units + [u]
    ensures UnitsFit(all) && w.file + UpTo(e, landed) <= File(all, sum)
    ensures landed >= |e| ==> w.file + UpTo(e, landed) == File(all, sum)
  {
    var n := |w.units|;
    FileNext(all, sum, n);
    assert all[..n] == w.units && all[..n + 1] == all;
  }

  lemma RecoverKeeps(w: World, k: nat, sum: Checksum)
    requires Inv(w, sum) && |File(w.units, sum)| < OFFSETS && k == Whole(w.units, sum, |w.file|)
    ensures Truncated(w.file, sum) == File(w.units[..k], sum)
  {
    CutFold(w.file, w.units, k, true, sum);
  }

  lemma StepKeeps(w: World, ev: Event, t: World, sum: Checksum)
    requires Inv(w, sum) && Allowed(w, ev, sum) && Steps(w, ev, t, sum)
    ensures Inv(t, sum)
    ensures ev.Recover? ==> t.file == File(t.units, sum) && t.units <= w.units
  {
    match ev
    case Append(u, landed) => AppendKeeps(w, u, landed, RecsBytes(Records(u), sum), t.units, sum);
    case Cut(_) =>
    case Recover => RecoverKeeps(w, Whole(w.units, sum, |w.file|), sum);
  }

  ghost predicate IsRun(run: seq<World>, events: seq<Event>, sum: Checksum) {
    && |run| == |events| + 1 && run[0] == World([], [])
    && forall k :: 0 <= k < |events| ==>
         UnitsFit(run[k].units) && Allowed(run[k], events[k], sum) && Steps(run[k], events[k], run[k + 1], sum)
  }

  lemma {:induction false} RunKeeps(run: seq<World>, events: seq<Event>, sum: Checksum, k: nat)
    requires IsRun(run, events, sum) && k < |run|
    ensures Inv(run[k], sum)
  {
    if k > 0 {
      RunKeeps(run, events, sum, k - 1);
      StepKeeps(run[k - 1], events[k - 1], run[k], sum);
    }
  }

  /** At any point of any run of appends, crashes and recoveries, a scan hands over the complete units and
      nothing else, and after a recovery the file is made of whole units again. */
  lemma RecoveryIsAtomic(run: seq<World>, events: seq<Event>, sum: Checksum, k: nat, n: nat)
    requires IsRun(run, events, sum) && k < |run|
    requires UnitsFit(run[k].units) ==>
               |File(run[k].units, sum)| < OFFSETS && n == Whole(run[k].units, sum, |run[k].file|)
    ensures UnitsFit(run[k].units) && n <= |run[k].units|
    ensures Fold(run[k].file, 0, true, sum) == Done(|File(run[k].units[..n], sum)|, SeenUnits(run[k].units[..n], 0))
    ensures Truncated(run[k].file, sum) == File(run[k].units[..n], sum)
  {
    RunKeeps(run, events, sum, k);
    FoldWhole(run[k].file, run[k].units, n, true, sum);
    RecoverKeeps(run[k], n, sum);
  }
}
