/**
  Batches that do not come out even (src/fileops/data_file.cpp 380-400, include/bitcask/format.hpp 49-60): where the
  scan stops, what it has handed over by then, and that nothing of such a batch counts as valid.
 */
module BrokenBatches {
  import opened Bytes
  import opened RecordFormat
  import opened FoldRecovery
  import opened PositionedWrites
  import opened Leftovers
  import opened DamagedScan
  import LE = LittleEndian

  // ---------------------------------------------------------------------------------------
  // What the scan makes of it
  // ---------------------------------------------------------------------------------------

  /** The scan behind a member that is not the last. */
  ghost function Behind(s: Scan, r: Rec): Scan {
    Scan(s.offset + Size(r), s.until, s.lve, s.crcErrors, s.seen + [Seen(r, s.offset, Size(r))])
  }

  /** The scan behind some members. */
  ghost function BehindAll(s: Scan, recs: seq<Rec>): Scan {
    Scan(s.offset + Span(recs), s.until, s.lve, s.crcErrors, s.seen + SeenOf(recs, s.offset))
  }

  lemma BehindNext(s: Scan, recs: seq<Rec>, r: Rec, rest: seq<Rec>)
    requires recs != [] && r == recs[0] && rest == recs[1..]
    ensures BehindAll(s, recs) == BehindAll(Behind(s, r), rest)
  {
    assert Span(recs) == SpanCons(r, rest) && SeenOf(recs, s.offset) == SeenCons(r, rest, s.offset);
    Joined(s.seen, Seen(r, s.offset, Size(r)), SeenOf(rest, s.offset + Size(r)));
  }

  lemma PassesMember(view: View, total: nat, r: Rec, s: Scan, tol: bool)
    requires Sound(view, total) && view(s.offset) == Found(r, Size(r)) && r.kind != BATCH_HEADER
    requires s.offset + Size(r) < s.until <= total
    ensures FoldFrom(view, total, s, tol) == FoldFrom(view, total, Behind(s, r), tol)
  {
    FoldGoes(view, total, s, tol, Behind(s, r));
  }

  /** Inside a batch the scan passes members that end before the batch does, and the valid end stays. */
  lemma {:induction false} PassesMembers(view: View, total: nat, recs: seq<Rec>, s: Scan, tol: bool)
    requires Sound(view, total) && AllPlain(recs) && ShowsAll(view, total, s.offset, recs)
    requires s.offset + Span(recs) < s.until <= total
    ensures FoldFrom(view, total, s, tol) == FoldFrom(view, total, BehindAll(s, recs), tol)
    decreases |recs|
  {
    if recs == [] {
      assert s.seen + [] == s.seen;
      assert BehindAll(s, recs) == s;
    } else {
      var r, rest := recs[0], recs[1..];
      FirstOfRecords(view, total, s.offset, recs, r, rest);
      PassesMember(view, total, r, s, tol);
      PassesMembers(view, total, rest, Behind(s, r), tol);
      BehindNext(s, recs, r, rest);
    }
  }

  /** The record at which a batch breaks off: another header, or one that does not end with the batch or before. */
  ghost predicate BreaksOff(last: Rec, left: int) {
    Foldable(last) && (last.kind == BATCH_HEADER || Size(last) > left)
  }

  /** Of these two only the record that reaches too far has been handed over by then. */
  ghost function LastCall(last: Rec, at: nat): seq<Seen> {
    if last.kind == BATCH_HEADER then [] else [Seen(last, at, Size(last))]
  }

  lemma StopsAt(view: View, total: nat, last: Rec, s: Scan, tol: bool)
    requires Sound(view, total) && view(s.offset) == Found(last, Size(last)) && s.until != 0
    requires BreaksOff(last, s.until - s.offset)
    ensures FoldFrom(view, total, s, tol) == Done(s.lve, s.seen + LastCall(last, s.offset))
  {
    assert s.seen + [] == s.seen;
    FoldHalts(view, total, s, tol, Done(s.lve, s.seen + LastCall(last, s.offset)));
  }

  /** A header, some members and the record at which the batch breaks off. */
  ghost predicate Broken(h: Rec, b: BatchInfo, members: seq<Rec>, last: Rec) {
    && Foldable(h) && h.kind == BATCH_HEADER && DecodeBatch(h.value) == Some(b)
    && AllPlain(members) && Span(members) < b.span && BreaksOff(last, b.span - Span(members))
  }

  ghost function BrokenCalls(h: Rec, members: seq<Rec>, last: Rec, at: nat): seq<Seen> {
    var first := at + Size(h);
    [Seen(h, at, Size(h))] + SeenOf(members, first) + LastCall(last, first + Span(members))
  }

  lemma Assembled(seen: seq<Seen>, h: seq<Seen>, members: seq<Seen>, last: seq<Seen>)
    ensures ((seen + h) + members) + last == seen + (h + members + last)
  {
  }

  /** The scan behind the header. */
  ghost function Entered(at: nat, h: Rec, b: BatchInfo, seen: seq<Seen>): Scan {
    Scan(at + Size(h), at + Size(h) + b.span, at, 0, seen + [Seen(h, at, Size(h))])
  }

  /** Where the records of a broken batch are found. */
  ghost predicate ShowsBroken(view: View, total: nat, at: nat, h: Rec, members: seq<Rec>, last: Rec) {
    && view(at) == Found(h, Size(h)) && ShowsAll(view, total, at + Size(h), members)
    && view(at + Size(h) + Span(members)) == Found(last, Size(last))
  }

  lemma BreaksInside(view: View, total: nat, at: nat, h: Rec, b: BatchInfo, members: seq<Rec>, last: Rec,
                     seen: seq<Seen>, tol: bool)
    requires Sound(view, total) && Broken(h, b, members, last) && ShowsBroken(view, total, at, h, members, last)
    requires at + Size(h) + b.span <= total < OFFSETS
    ensures FoldFrom(view, total, Between(at, 0, seen), tol) == Done(at, seen + BrokenCalls(h, members, last, at))
  {
    var s := Entered(at, h, b, seen);
    HeaderGoes(view, total, h, b, Between(at, 0, seen), at + Size(h) + b.span, tol);
    PassesMembers(view, total, members, s, tol);
    StopsAt(view, total, last, BehindAll(s, members), tol);
    Assembled(seen, [Seen(h, at, Size(h))], SeenOf(members, at + Size(h)),
              LastCall(last, at + Size(h) + Span(members)));
  }

  // ---------------------------------------------------------------------------------------
  // Broken batches in a file
  // ---------------------------------------------------------------------------------------

  /** Behind the first bytes of a file stands this record. */
  ghost predicate RecordBehind(f: seq<byte>, front: seq<byte>, r: Rec, sum: Checksum) {
    Foldable(r) && front + RecBytes(r, sum) <= f
  }

  ghost predicate RecordsBehind(f: seq<byte>, front: seq<byte>, recs: seq<Rec>, sum: Checksum) {
    AllPlain(recs) && front + RecsBytes(recs, sum) <= f
  }

  lemma FoundBehind(f: seq<byte>, front: seq<byte>, at: nat, r: Rec, view: View, sum: Checksum)
    requires RecordBehind(f, front, r, sum) && at == |front| && view == ViewOf(f, sum)
    ensures view(at) == Found(r, Size(r))
  {
    RecordThere(f, f, front, r, sum);
  }

  lemma MembersShown(f: seq<byte>, front: seq<byte>, at: nat, recs: seq<Rec>, view: View, sum: Checksum)
    requires RecordsBehind(f, front, recs, sum) && at == |front| && view == ViewOf(f, sum)
    ensures ShowsAll(view, |f|, at, recs)
  {
    UnitShown(f, f, front, recs, view, sum);
  }

  ghost function BrokenBytes(h: Rec, members: seq<Rec>, last: Rec, sum: Checksum): seq<byte>
    requires Foldable(h) && AllPlain(members) && Foldable(last)
  {
    RecBytes(h, sum) + RecsBytes(members, sum) + RecBytes(last, sum)
  }

  /** Where the parts of a file begin. */
  lemma Parts(f: seq<byte>, front: seq<byte>, a: seq<byte>, c: seq<byte>, e: seq<byte>, tail: seq<byte>)
    requires f == front + ((a + c + e) + tail)
    ensures front + a <= f && (front + a) + c <= f && ((front + a) + c) + e <= f
  {
    assert f == (((front + a) + c) + e) + tail;
  }

  lemma BrokenParts(f: seq<byte>, front: seq<byte>, h: Rec, members: seq<Rec>, last: Rec, tail: seq<byte>,
                    sum: Checksum)
      returns (first: seq<byte>, inner: seq<byte>)
    requires Foldable(h) && AllPlain(members) && Foldable(last)
    requires f == front + (BrokenBytes(h, members, last, sum) + tail)
    ensures RecordBehind(f, front, h, sum) && RecordsBehind(f, first, members, sum) && RecordBehind(f, inner, last, sum)
    ensures |first| == |front| + Size(h) && |inner| == |front| + Size(h) + Span(members)
  {
    var a, c, e := RecBytes(h, sum), RecsBytes(members, sum), RecBytes(last, sum);
    Parts(f, front, a, c, e, tail);
    RecsLength(members, sum);
    first, inner := front + a, (front + a) + c;
  }

  lemma PartsShown(f: seq<byte>, front: seq<byte>, first: seq<byte>, inner: seq<byte>, at: nat, to: nat, h: Rec,
                   members: seq<Rec>, last: Rec, view: View, sum: Checksum)
    requires RecordBehind(f, front, h, sum) && RecordsBehind(f, first, members, sum)
    requires RecordBehind(f, inner, last, sum) && at == |first| && to == |inner| && view == ViewOf(f, sum)
    ensures view(|front|) == Found(h, Size(h)) && ShowsAll(view, |f|, at, members)
    ensures view(to) == Found(last, Size(last))
  {
    FoundBehind(f, front, |front|, h, view, sum);
    MembersShown(f, first, at, members, view, sum);
    FoundBehind(f, inner, to, last, view, sum);
  }

  lemma BrokenShown(view: View, total: nat, start: nat, at: nat, to: nat, h: Rec, members: seq<Rec>, last: Rec)
    requires view(start) == Found(h, Size(h)) && ShowsAll(view, total, at, members)
    requires view(to) == Found(last, Size(last)) && at == start + Size(h) && to == at + Span(members)
    ensures ShowsBroken(view, total, start, h, members, last)
  {
  }

  lemma BrokenThere(f: seq<byte>, units: seq<Unit>, h: Rec, b: BatchInfo, members: seq<Rec>, last: Rec,
                    tail: seq<byte>, tol: bool, sum: Checksum)
    requires UnitsFit(units) && Broken(h, b, members, last) && |f| < OFFSETS
    requires f == File(units, sum) + (BrokenBytes(h, members, last, sum) + tail)
    requires |File(units, sum)| + Size(h) + b.span <= |f|
    ensures var at := |File(units, sum)|;
            Fold(f, 0, tol, sum) == Done(at, SeenUnits(units, 0) + BrokenCalls(h, members, last, at))
  {
    var front, view := File(units, sum), ViewOf(f, sum);
    ViewIsSound(f, sum);
    ScanComesTo(f, units, BrokenBytes(h, members, last, sum) + tail, view, tol, sum, Fold(f, 0, tol, sum));
    var first, inner := BrokenParts(f, front, h, members, last, tail, sum);
    PartsShown(f, front, first, inner, |first|, |inner|, h, members, last, view, sum);
    BrokenShown(view, |f|, |front|, |first|, |inner|, h, members, last);
    BreaksInside(view, |f|, |front|, h, b, members, last, SeenUnits(units, 0), tol);
  }

  /** A batch in which another header turns up, or whose last record reaches beyond its end: the scan stops there
      whatever comes behind. Some members have been handed over, but the valid end is where the batch begins. */
  lemma BrokenBatchIsCutOff(f: seq<byte>, units: seq<Unit>, h: Rec, b: BatchInfo, members: seq<Rec>, last: Rec,
                            tail: seq<byte>, tol: bool, sum: Checksum)
    requires UnitsFit(units) && Broken(h, b, members, last) && |f| < OFFSETS
    requires f == File(units, sum) + (BrokenBytes(h, members, last, sum) + tail)
    requires |File(units, sum)| + Size(h) + b.span <= |f|
    ensures var at := |File(units, sum)|;
            Fold(f, 0, tol, sum) == Done(at, SeenUnits(units, 0) + BrokenCalls(h, members, last, at))
    ensures Truncated(f, sum) == File(units, sum)
  {
    BrokenThere(f, units, h, b, members, last, tail, tol, sum);
    BrokenThere(f, units, h, b, members, last, tail, true, sum);
  }

  // ---------------------------------------------------------------------------------------
  // A damaged record at the end of a batch
  // ---------------------------------------------------------------------------------------

  /** The bytes of a record changed behind its back: its sizes are the same, and its checksum does not fit. */
  ghost predicate Hurt(d: seq<byte>, r: Rec, sum: Checksum) {
    && Foldable(r) && |d| == Size(r) && d[21..27] == RecBytes(r, sum)[21..27] && sum(d[4..]) != LE.Get32(d, 0)
  }

  ghost function HurtBytes(h: Rec, members: seq<Rec>, d: seq<byte>, sum: Checksum): seq<byte>
    requires Foldable(h) && AllPlain(members)
  {
    RecBytes(h, sum) + RecsBytes(members, sum) + d
  }

  /** Where the records of such a batch are found. */
  ghost predicate ShowsHurt(view: View, total: nat, at: nat, h: Rec, members: seq<Rec>, size: nat) {
    && view(at) == Found(h, Size(h)) && ShowsAll(view, total, at + Size(h), members)
    && view(at + Size(h) + Span(members)) == Damaged(size)
  }

  ghost function HurtCalls(h: Rec, members: seq<Rec>, at: nat): seq<Seen> {
    [Seen(h, at, Size(h))] + SeenOf(members, at + Size(h))
  }

  lemma HurtParts(f: seq<byte>, front: seq<byte>, h: Rec, members: seq<Rec>, d: seq<byte>, tail: seq<byte>,
                  sum: Checksum)
      returns (first: seq<byte>, inner: seq<byte>)
    requires Foldable(h) && AllPlain(members) && f == front + (HurtBytes(h, members, d, sum) + tail)
    ensures RecordBehind(f, front, h, sum) && RecordsBehind(f, first, members, sum) && inner + d <= f
    ensures |first| == |front| + Size(h) && |inner| == |front| + Size(h) + Span(members)
  {
    var a, c := RecBytes(h, sum), RecsBytes(members, sum);
    Parts(f, front, a, c, d, tail);
    RecsLength(members, sum);
    first, inner := front + a, (front + a) + c;
  }

  lemma HurtFound(f: seq<byte>, inner: seq<byte>, d: seq<byte>, r: Rec, view: View, at: nat, sum: Checksum)
    requires Hurt(d, r, sum) && inner + d <= f && at == |inner| && view == ViewOf(f, sum)
    ensures view(at) == Damaged(Size(r))
  {
    assert f[at..at + Size(r)] == d;
    StandsShown(f, at, r, true, sum);
  }

  lemma HurtPartsShown(f: seq<byte>, front: seq<byte>, first: seq<byte>, inner: seq<byte>, at: nat, to: nat, h: Rec,
                       members: seq<Rec>, last: Rec, d: seq<byte>, view: View, sum: Checksum)
    requires RecordBehind(f, front, h, sum) && RecordsBehind(f, first, members, sum) && Hurt(d, last, sum)
    requires inner + d <= f && at == |first| && to == |inner| && view == ViewOf(f, sum)
    ensures view(|front|) == Found(h, Size(h)) && ShowsAll(view, |f|, at, members)
    ensures view(to) == Damaged(Size(last))
  {
    FoundBehind(f, front, |front|, h, view, sum);
    MembersShown(f, first, at, members, view, sum);
    HurtFound(f, inner, d, last, view, to, sum);
  }

  lemma HurtShown(view: View, total: nat, start: nat, at: nat, to: nat, h: Rec, members: seq<Rec>, size: nat)
    requires view(start) == Found(h, Size(h)) && ShowsAll(view, total, at, members) && view(to) == Damaged(size)
    requires at == start + Size(h) && to == at + Span(members)
    ensures ShowsHurt(view, total, start, h, members, size)
  {
  }

  lemma HurtInside(view: View, total: nat, at: nat, h: Rec, b: BatchInfo, members: seq<Rec>, size: nat,
                   seen: seq<Seen>, tol: bool)
    requires Sound(view, total) && h.kind == BATCH_HEADER && DecodeBatch(h.value) == Some(b) && AllPlain(members)
    requires ShowsHurt(view, total, at, h, members, size)
    requires Span(members) < b.span < Span(members) + size && at + Size(h) + b.span <= total < OFFSETS
    ensures FoldFrom(view, total, Between(at, 0, seen), tol)
         == if tol then Done(at, seen + HurtCalls(h, members, at)) else FailedCrc
  {
    var s := Entered(at, h, b, seen);
    HeaderGoes(view, total, h, b, Between(at, 0, seen), at + Size(h) + b.span, tol);
    PassesMembers(view, total, members, s, tol);
    var t := BehindAll(s, members);
    Rejoined(seen, [Seen(h, at, Size(h))], SeenOf(members, at + Size(h)));
    FoldHalts(view, total, t, tol, if tol then Done(at, t.seen) else FailedCrc);
  }

  /** Behind whole units comes a header, some members, and a damaged record that reaches beyond the end of the batch. */
  ghost predicate HurtBehind(f: seq<byte>, units: seq<Unit>, h: Rec, b: BatchInfo, members: seq<Rec>, last: Rec,
                             d: seq<byte>, tail: seq<byte>, sum: Checksum)
    requires UnitsFit(units)
  {
    && Broken(h, b, members, last) && Hurt(d, last, sum) && Size(last) > b.span - Span(members)
    && |File(units, sum)| + Size(h) + b.span <= |f| < OFFSETS
    && f == File(units, sum) + (HurtBytes(h, members, d, sum) + tail)
  }

  lemma HurtThere(f: seq<byte>, units: seq<Unit>, h: Rec, b: BatchInfo, members: seq<Rec>, last: Rec, d: seq<byte>,
                  tail: seq<byte>, tol: bool, sum: Checksum)
    requires UnitsFit(units) && HurtBehind(f, units, h, b, members, last, d, tail, sum)
    ensures Fold(f, 0, tol, sum)
         == if tol then Done(|File(units, sum)|, SeenUnits(units, 0) + HurtCalls(h, members, |File(units, sum)|))
            else FailedCrc
  {
    var front, view := File(units, sum), ViewOf(f, sum);
    ViewIsSound(f, sum);
    ScanComesTo(f, units, HurtBytes(h, members, d, sum) + tail, view, tol, sum, Fold(f, 0, tol, sum));
    var first, inner := HurtParts(f, front, h, members, d, tail, sum);
    HurtPartsShown(f, front, first, inner, |first|, |inner|, h, members, last, d, view, sum);
    HurtShown(view, |f|, |front|, |first|, |inner|, h, members, Size(last));
    HurtInside(view, |f|, |front|, h, b, members, Size(last), SeenUnits(units, 0), tol);
  }

  /** Such a record is not handed over. Nothing of the batch is valid then, and without tolerance the scan fails. */
  lemma HurtBatchIsCutOff(f: seq<byte>, units: seq<Unit>, h: Rec, b: BatchInfo, members: seq<Rec>, last: Rec,
                          d: seq<byte>, tail: seq<byte>, sum: Checksum)
    requires UnitsFit(units) && HurtBehind(f, units, h, b, members, last, d, tail, sum)
    ensures Fold(f, 0, false, sum) == FailedCrc
    ensures Fold(f, 0, true, sum)
         == Done(|File(units, sum)|, SeenUnits(units, 0) + HurtCalls(h, members, |File(units, sum)|))
    ensures Truncated(f, sum) == File(units, sum)
  {
    HurtThere(f, units, h, b, members, last, d, tail, false, sum);
    HurtThere(f, units, h, b, members, last, d, tail, true, sum);
  }

  // ---------------------------------------------------------------------------------------
  // Headers that announce nothing, or too much
  // ---------------------------------------------------------------------------------------

  /** A value of another size or version, or one that announces no members or no bytes. */
  predicate SaysNothing(v: seq<byte>) {
    |v| != 13 || v[0] != 1 || LE.Get32(v, 1) == 0 || LE.Get64(v, 5) == 0
  }

  lemma NotEntered(view: View, total: nat, h: Rec, s: Scan, tol: bool)
    requires Sound(view, total) && view(s.offset) == Found(h, Size(h)) && h.kind == BATCH_HEADER
    requires SaysNothing(h.value)
    ensures FoldFrom(view, total, s, tol) == Done(s.lve, s.seen)
  {
    assert DecodeBatch(h.value) == None;
    FoldHalts(view, total, s, tol, Done(s.lve, s.seen));
  }

  lemma Wrapped(n: nat)
    requires n < 2 * OFFSETS
    ensures n % 0x1_0000_0000_0000_0000 == if n < OFFSETS then n else n - OFFSETS
  {
  }

  /** The end of a batch is added up in 64 bits. One behind the end of the file is not entered; if the sum wraps around
      the header is handed over and the scan stops, unless it comes out as 0, which is the mark of no batch. */
  lemma AnnouncesTooMuch(view: View, total: nat, h: Rec, b: BatchInfo, at: nat, seen: seq<Seen>, tol: bool, end: nat)
    requires Sound(view, total) && view(at) == Found(h, Size(h)) && h.kind == BATCH_HEADER
    requires DecodeBatch(h.value) == Some(b) && end == at + Size(h) + b.span > total && total < OFFSETS
    ensures var calls := seen + [Seen(h, at, Size(h))];
            FoldFrom(view, total, Between(at, 0, seen), tol)
            == (if end < OFFSETS then Done(at, seen)
                else if end > OFFSETS then Done(at, calls)
                else FoldFrom(view, total, Between(at + Size(h), 0, calls), tol))
  {
    var s, calls := Between(at, 0, seen), seen + [Seen(h, at, Size(h))];
    assert at + Size(h) <= total;
    Wrapped(end);
    if end < OFFSETS {
      FoldHalts(view, total, s, tol, Done(at, seen));
    } else if end > OFFSETS {
      FoldHalts(view, total, s, tol, Done(at, calls));
    } else {
      FoldGoes(view, total, s, tol, Between(at + Size(h), 0, calls));
    }
  }

  lemma HeaderBehind(f: seq<byte>, front: seq<byte>, h: Rec, tail: seq<byte>, sum: Checksum)
    requires Foldable(h) && f == front + (RecBytes(h, sum) + tail)
    ensures RecordBehind(f, front, h, sum) && |f| == |front| + Size(h) + |tail|
  {
    var e := RecBytes(h, sum);
    assert f == (front + e) + tail;
  }

  /** The scan comes to a header behind whole units. */
  lemma HeaderThere(f: seq<byte>, units: seq<Unit>, h: Rec, tail: seq<byte>, tol: bool, view: View, at: nat,
                    sum: Checksum, o: Outcome)
    requires UnitsFit(units) && Foldable(h) && |f| < OFFSETS && view == ViewOf(f, sum) && at == |File(units, sum)|
    requires f == File(units, sum) + (RecBytes(h, sum) + tail) && o == Fold(f, 0, tol, sum)
    ensures Sound(view, |f|) && view(at) == Found(h, Size(h)) && |f| == at + Size(h) + |tail|
    ensures o == FoldFrom(view, |f|, Between(at, 0, SeenUnits(units, 0)), tol)
  {
    ViewIsSound(f, sum);
    ScanComesTo(f, units, RecBytes(h, sum) + tail, view, tol, sum, o);
    HeaderBehind(f, File(units, sum), h, tail, sum);
    FoundBehind(f, File(units, sum), at, h, view, sum);
  }

  /** Behind whole units nothing is valid from such a header on. */
  lemma BatchNotEntered(f: seq<byte>, units: seq<Unit>, h: Rec, tail: seq<byte>, tol: bool, sum: Checksum)
    requires UnitsFit(units) && Foldable(h) && h.kind == BATCH_HEADER && |f| < OFFSETS
    requires f == File(units, sum) + (RecBytes(h, sum) + tail)
    requires SaysNothing(h.value) || |tail| < LE.Get64(h.value, 5) < OFFSETS - |f| + |tail|
    ensures Fold(f, 0, tol, sum) == Done(|File(units, sum)|, SeenUnits(units, 0))
  {
    var at, seen, view := |File(units, sum)|, SeenUnits(units, 0), ViewOf(f, sum);
    HeaderThere(f, units, h, tail, tol, view, at, sum, Fold(f, 0, tol, sum));
    if SaysNothing(h.value) {
      NotEntered(view, |f|, h, Between(at, 0, seen), tol);
    } else {
      var b := DecodeBatch(h.value).value;
      AnnouncesTooMuch(view, |f|, h, b, at, seen, tol, at + Size(h) + b.span);
    }
  }

  /** The end of such a batch comes out as 0: the header is a record like others. */
  lemma HeaderOfNoBatch(f: seq<byte>, h: Rec, b: BatchInfo, tol: bool, sum: Checksum)
    requires Foldable(h) && h.kind == BATCH_HEADER && DecodeBatch(h.value) == Some(b)
    requires f == RecBytes(h, sum) && Size(h) + b.span == OFFSETS
    ensures Fold(f, 0, tol, sum) == Done(|f|, [Seen(h, 0, |f|)])
  {
    var view, calls := ViewOf(f, sum), [Seen(h, 0, |f|)];
    ViewIsSound(f, sum);
    assert [] + f == f && [] + calls == calls;
    FoundBehind(f, [], 0, h, view, sum);
    AnnouncesTooMuch(view, |f|, h, b, 0, [], tol, OFFSETS);
    FoldAtEnd(f, 0, calls, view, tol, sum);
  }
}
