/**
  A write that fails after some of its bytes have landed leaves them behind the valid end, and the store runs on
  (src/fileops/data_file.cpp 142-160): later records are written over them from the front. What a scan makes of
  those that are still there.
 */
module Leftovers {
  import opened Bytes
  import LE = LittleEndian
  import opened RecordFormat
  import opened PositionedWrites
  import opened FoldRecovery

  /** Between two units nothing more is handed over from here on and nothing stops the scan with an error: what is
      found is no complete record, or skipped as damaged, or the header of a batch that cannot be complete. */
  ghost predicate Quiet(view: View, total: nat, at: nat, crcErrors: nat, tol: bool)
    requires Sound(view, total)
    decreases total - at
  {
    match view(at)
    case End => true
    case Short => false
    case Damaged(size) =>
      tol && crcErrors < CRC_SKIP_LIMIT && at < at + size <= total && Quiet(view, total, at + size, crcErrors + 1, tol)
    case Found(rec, size) => rec.kind == BATCH_HEADER && Refused(rec, at + size, total)
  }

  /** The scan takes this header for the end of the file. */
  ghost predicate Refused(h: Rec, end: nat, total: nat) {
    DecodeBatch(h.value) == None || (end + DecodeBatch(h.value).value.span as int) % OFFSETS > total
  }

  /** What was handed over stays handed over. */
  lemma {:induction false} SeenGrows(view: View, total: nat, s: Scan, tol: bool, o: Outcome)
    requires Sound(view, total) && o == FoldFrom(view, total, s, tol)
    ensures o.Done? ==> s.seen <= o.seen
    decreases total - s.offset
  {
    match Next(view, total, s, tol)
    case Halt(outcome) => FoldHalts(view, total, s, tol, outcome);
    case Go(next) =>
      NextMovesOn(view, total, s, tol);
      FoldGoes(view, total, s, tol, next);
      SeenGrows(view, total, next, tol, o);
  }

  lemma SomethingSeen(view: View, total: nat, s: Scan, rec: Rec, size: nat, tol: bool, o: Outcome)
    requires Sound(view, total) && s.until == 0 && view(s.offset) == Found(rec, size)
    requires rec.kind == BATCH_HEADER ==> !Refused(rec, s.offset + size, total)
    requires o == FoldFrom(view, total, s, tol)
    ensures o.Done? ==> s.seen + [Seen(rec, s.offset, size)] <= o.seen
  {
    match Next(view, total, s, tol)
    case Halt(outcome) => FoldHalts(view, total, s, tol, outcome);
    case Go(next) =>
      NextMovesOn(view, total, s, tol);
      FoldGoes(view, total, s, tol, next);
      SeenGrows(view, total, next, tol, o);
  }

  /** From a place between two units the scan ends as it stands exactly if all is quiet from there on. */
  lemma {:induction false} QuietExactly(view: View, total: nat, s: Scan, tol: bool, o: Outcome)
    requires Sound(view, total) && s.until == 0 && o == FoldFrom(view, total, s, tol)
    ensures o == Done(s.lve, s.seen) <==> Quiet(view, total, s.offset, s.crcErrors, tol)
    decreases total - s.offset
  {
    var look := view(s.offset);
    if look.Damaged? && tol && s.crcErrors < CRC_SKIP_LIMIT {
      var next := s.(offset := s.offset + look.size, crcErrors := s.crcErrors + 1);
      FoldGoes(view, total, s, tol, next);
      QuietExactly(view, total, next, tol, o);
    } else if look.Found? && !(look.rec.kind == BATCH_HEADER && Refused(look.rec, s.offset + look.size, total)) {
      SomethingSeen(view, total, s, look.rec, look.size, tol, o);
    } else {
      var outcome := if look.Short? then FailedShort else if look.Damaged? then FailedCrc else Done(s.lve, s.seen);
      FoldHalts(view, total, s, tol, outcome);
    }
  }

  // ---------------------------------------------------------------------------------------
  // Leftovers behind whole units
  // ---------------------------------------------------------------------------------------

  lemma AllPassed(units: seq<Unit>, i: nat, at: nat, seen: seq<Seen>)
    requires UnitsOk(units) && i == |units|
    ensures seen + SeenUnits(units[i..], at) == seen
  {
    assert units[i..] == [];
  }

  lemma RestPassed(units: seq<Unit>, i: nat, at: nat, recs: seq<Rec>, seen: seq<Seen>, mine: seq<Seen>,
                   seen': seq<Seen>, all: seq<Seen>, end: nat)
    requires UnitsOk(units) && i < |units| && recs == Records(units[i]) && mine == SeenOf(recs, at)
    requires seen' == seen + mine && end == at + Span(recs) && all == seen + SeenUnits(units[i..], at)
    ensures all == seen' + SeenUnits(units[i + 1..], end)
  {
    SeenUnitsNext(units, i, |units|, at, recs);
    assert units[i..|units|] == units[i..] && units[i + 1..|units|] == units[i + 1..];
    Rejoined(seen, mine, SeenUnits(units[i + 1..], end));
  }

  lemma PassesFits(f: seq<byte>, whole: seq<byte>, front: seq<byte>, units: seq<Unit>, i: nat, recs: seq<Rec>,
                   seen: seq<Seen>, mine: seq<Seen>, view: View, tol: bool, sum: Checksum, o: Outcome)
      returns (next: seq<byte>)
    requires UnitsFit(units) && i < |units| && whole == File(units, sum) && whole <= f && |f| < OFFSETS
    requires front == File(units[..i], sum) && view == ViewOf(f, sum) && Sound(view, |f|)
    requires recs == Records(units[i]) && mine == SeenOf(recs, |front|)
    requires o == FoldFrom(view, |f|, Between(|front|, 0, seen), tol)
    ensures next == File(units[..i + 1], sum) && |next| == |front| + Span(recs)
    ensures o == FoldFrom(view, |f|, Between(|next|, 0, seen + mine), tol)
  {
    next := UnitInside(f, whole, front, units, i, recs, sum);
    FoldThere(f, f, front, next, units[i], recs, 0, seen, view, tol, sum);
  }

  lemma PassesOne(f: seq<byte>, whole: seq<byte>, front: seq<byte>, units: seq<Unit>, i: nat, seen: seq<Seen>,
                  all: seq<Seen>, view: View, tol: bool, sum: Checksum, o: Outcome)
      returns (next: seq<byte>, seen': seq<Seen>)
    requires UnitsFit(units) && i < |units| && whole == File(units, sum) && whole <= f && |f| < OFFSETS
    requires front == File(units[..i], sum) && view == ViewOf(f, sum) && Sound(view, |f|)
    requires o == FoldFrom(view, |f|, Between(|front|, 0, seen), tol)
    requires all == seen + SeenUnits(units[i..], |front|)
    ensures next == File(units[..i + 1], sum) && o == FoldFrom(view, |f|, Between(|next|, 0, seen'), tol)
    ensures all == seen' + SeenUnits(units[i + 1..], |next|)
  {
    var recs := Records(units[i]);
    var mine := SeenOf(recs, |front|);
    seen' := seen + mine;
    next := PassesFits(f, whole, front, units, i, recs, seen, mine, view, tol, sum, o);
    RestPassed(units, i, |front|, recs, seen, mine, seen', all, |next|);
  }

  /** The scan passes the units from the i-th on and comes to what lies behind them. */
  lemma {:induction false} PassesUnits(f: seq<byte>, whole: seq<byte>, front: seq<byte>, units: seq<Unit>, i: nat,
                                       seen: seq<Seen>, all: seq<Seen>, view: View, tol: bool, sum: Checksum,
                                       o: Outcome)
    requires UnitsFit(units) && i <= |units| && whole == File(units, sum) && whole <= f && |f| < OFFSETS
    requires front == File(units[..i], sum) && view == ViewOf(f, sum) && Sound(view, |f|)
    requires o == FoldFrom(view, |f|, Between(|front|, 0, seen), tol)
    requires all == seen + SeenUnits(units[i..], |front|)
    ensures o == FoldFrom(view, |f|, Between(|whole|, 0, all), tol)
    decreases |units| - i
  {
    if i == |units| {
      assert units[..i] == units;
      AllPassed(units, i, |front|, seen);
    } else {
      var next, seen' := PassesOne(f, whole, front, units, i, seen, all, view, tol, sum, o);
      PassesUnits(f, whole, next, units, i + 1, seen', all, view, tol, sum, o);
    }
  }

  lemma ScanComesTo(f: seq<byte>, units: seq<Unit>, tail: seq<byte>, view: View, tol: bool, sum: Checksum, o: Outcome)
    requires UnitsFit(units) && f == File(units, sum) + tail && |f| < OFFSETS
    requires view == ViewOf(f, sum) && Sound(view, |f|) && o == Fold(f, 0, tol, sum)
    ensures o == FoldFrom(view, |f|, Between(|File(units, sum)|, 0, SeenUnits(units, 0)), tol)
  {
    assert units[..0] == [] && units[0..] == units;
    assert [] + SeenUnits(units, 0) == SeenUnits(units, 0);
    PassesUnits(f, File(units, sum), [], units, 0, [], SeenUnits(units, 0), view, tol, sum, o);
  }

  /** Bytes behind whole units do not show in a scan exactly if they are quiet. */
  lemma LeftoversHideExactly(f: seq<byte>, units: seq<Unit>, tail: seq<byte>, tol: bool, sum: Checksum)
    requires UnitsFit(units) && f == File(units, sum) + tail && |f| < OFFSETS
    ensures Sound(ViewOf(f, sum), |f|)
    ensures Fold(f, 0, tol, sum) == Done(|File(units, sum)|, SeenUnits(units, 0))
       <==> Quiet(ViewOf(f, sum), |f|, |File(units, sum)|, 0, tol)
    ensures |tail| < HEADER_SIZE ==> Quiet(ViewOf(f, sum), |f|, |File(units, sum)|, 0, tol)
  {
    ViewIsSound(f, sum);
    var o, view := Fold(f, 0, tol, sum), ViewOf(f, sum);
    ScanComesTo(f, units, tail, view, tol, sum, o);
    QuietExactly(view, |f|, Between(|File(units, sum)|, 0, SeenUnits(units, 0)), tol, o);
  }

  // ---------------------------------------------------------------------------------------
  // A failed write, and then others
  // ---------------------------------------------------------------------------------------

  /** The bytes of every unit. */
  ghost function Pieces(units: seq<Unit>, sum: Checksum): (pieces: seq<seq<byte>>)
    requires UnitsOk(units)
    decreases |units|, 1
  {
    if units == [] then [] else PiecesSnoc(units[..|units| - 1], units[|units| - 1], sum)
  }

  ghost function PiecesSnoc(units: seq<Unit>, u: Unit, sum: Checksum): (pieces: seq<seq<byte>>)
    requires UnitsOk(units) && UnitOk(u)
    decreases |units| + 1, 0
  {
    Pieces(units, sum) + [RecsBytes(Records(u), sum)]
  }

  /** The file after a write of e has failed at its end and n bytes of it have landed, and other units have then been
      written in its place. */
  ghost function AfterFailure(units: seq<Unit>, e: seq<byte>, n: nat, more: seq<Unit>, sum: Checksum): seq<byte>
    requires UnitsOk(units) && UnitsOk(more)
  {
    var d := File(units, sum);
    WriteAll(Pwritten(d, |d|, UpTo(e, n)), d, Pieces(more, sum))
  }

  lemma UnitBytes(u: Unit, sum: Checksum)
    requires UnitOk(u)
    ensures RecsBytes(Records(u), sum) != []
  {
    var recs := Records(u);
    RecsLength(recs, sum);
    assert Span(recs) == SpanCons(recs[0], recs[1..]);
  }

  lemma Appended(front: seq<Unit>, u: Unit, all: seq<Unit>, x: seq<byte>, sum: Checksum)
    requires UnitsOk(front) && UnitOk(u) && all == front + [u] && x == RecsBytes(Records(u), sum)
    ensures UnitsOk(all) && File(all, sum) == File(front, sum) + x && x != []
  {
    var n := |front|;
    FileNext(all, sum, n);
    assert all[..n] == front && all[..n + 1] == all;
    UnitBytes(u, sum);
  }

  /** Pieces written one after the other make up the file. */
  ghost predicate MadeUp(file: seq<byte>, d: seq<byte>, pieces: seq<seq<byte>>) {
    file == Grown(d, pieces) && NoneEmpty(pieces)
  }

  lemma OneMorePiece(file: seq<byte>, d: seq<byte>, pieces: seq<seq<byte>>, x: seq<byte>)
    requires MadeUp(file, d, pieces) && x != []
    ensures MadeUp(file + x, d, pieces + [x])
  {
    GrownSnoc(d, pieces, x);
  }

  lemma {:induction false} Grows(units: seq<Unit>, more: seq<Unit>, sum: Checksum)
    requires UnitsOk(units) && UnitsOk(more)
    ensures UnitsOk(units + more) && MadeUp(File(units + more, sum), File(units, sum), Pieces(more, sum))
    decreases |more|, 1
  {
    if more == [] {
      assert units + more == units;
    } else {
      GrowsOne(units, more[..|more| - 1], more[|more| - 1], more, sum);
    }
  }

  lemma {:induction false} GrowsOne(units: seq<Unit>, before: seq<Unit>, u: Unit, more: seq<Unit>, sum: Checksum)
    requires UnitsOk(units) && UnitsOk(before) && UnitOk(u) && UnitsOk(more) && more == before + [u]
    ensures UnitsOk(units + more) && MadeUp(File(units + more, sum), File(units, sum), Pieces(more, sum))
    decreases |before| + 1, 0
  {
    Grows(units, before, sum);
    var x := RecsBytes(Records(u), sum);
    assert units + more == (units + before) + [u];
    Appended(units + before, u, units + more, x, sum);
    PiecesNext(before, u, more, x, sum);
    OneMorePiece(File(units + before, sum), File(units, sum), Pieces(before, sum), x);
  }

  lemma PiecesNext(before: seq<Unit>, u: Unit, more: seq<Unit>, x: seq<byte>, sum: Checksum)
    requires UnitsOk(before) && UnitOk(u) && UnitsOk(more) && more == before + [u] && x == RecsBytes(Records(u), sum)
    ensures Pieces(more, sum) == Pieces(before, sum) + [x]
  {
    assert more[..|more| - 1] == before;
    assert Pieces(more, sum) == PiecesSnoc(before, u, sum);
  }

  /** What is left of the failed write is what reaches beyond the end of the others. */
  lemma LeftBehind(units: seq<Unit>, e: seq<byte>, n: nat, more: seq<Unit>, sum: Checksum) returns (m: nat)
    requires UnitsOk(units) && UnitsOk(more)
    ensures UnitsOk(units + more) && |File(units + more, sum)| == |File(units, sum)| + m
    ensures AfterFailure(units, e, n, more, sum) == File(units + more, sum) + Past(UpTo(e, n), m)
  {
    var d := File(units, sum);
    AtTheEnd(d, UpTo(e, n));
    Grows(units, more, sum);
    m := WriteAllIs(d, UpTo(e, n), Pieces(more, sum));
  }

  /** After a failed write and any number of others, a scan sees exactly what was written successfully if and only if
      what is left of the failed one is quiet. Once the others are as long as what had landed, nothing is left. */
  lemma FailedWriteHidesExactly(units: seq<Unit>, e: seq<byte>, n: nat, more: seq<Unit>, tol: bool, sum: Checksum)
    requires UnitsFit(units) && UnitsFit(more) && |AfterFailure(units, e, n, more, sum)| < OFFSETS
    ensures var f, all := AfterFailure(units, e, n, more, sum), units + more;
            && UnitsFit(all) && Sound(ViewOf(f, sum), |f|)
            && (Fold(f, 0, tol, sum) == Done(|File(all, sum)|, SeenUnits(all, 0))
                <==> Quiet(ViewOf(f, sum), |f|, |File(all, sum)|, 0, tol))
            && (|File(units, sum)| + n < |File(all, sum)| + HEADER_SIZE ==>
                 Quiet(ViewOf(f, sum), |f|, |File(all, sum)|, 0, tol))
  {
    var m := LeftBehind(units, e, n, more, sum);
    LeftoversHideExactly(AfterFailure(units, e, n, more, sum), units + more, Past(UpTo(e, n), m), tol, sum);
  }

  // ---------------------------------------------------------------------------------------
  // A record that nobody wrote
  // ---------------------------------------------------------------------------------------

  lemma SingleBytes(r: Rec, sum: Checksum)
    requires Plain(r)
    ensures RecsBytes(Records(Single(r)), sum) == RecBytes(r, sum)
  {
    assert [r][1..] == [];
    assert RecsBytes([r], sum) == RecsCons(r, [], sum);
    assert RecsCons(r, [], sum) == RecBytes(r, sum) + RecsBytes([], sum);
    assert RecBytes(r, sum) + [] == RecBytes(r, sum);
  }

  lemma ValueBytes(big: Rec, pre: seq<byte>, x: seq<byte>, post: seq<byte>, n: nat, k: nat, sum: Checksum)
    requires Writable(big) && big.value == pre + x + post
    requires n == HEADER_SIZE + |big.key| + |pre| && k == n + |x|
    ensures Past(UpTo(RecBytes(big, sum), k), n) == x
  {
    var e := RecBytes(big, sum);
    var front := LE.Put32(sum(Covered(big))) + Head(big) + big.key;
    assert |front| == HEADER_SIZE + |big.key|;
    assert e == (front + pre) + x + post;
    assert UpTo(e, k) == (front + pre) + x;
  }

  lemma FoundThere(f: seq<byte>, front: seq<byte>, x: seq<byte>, r: Rec, sum: Checksum)
    requires Foldable(r) && x == RecBytes(r, sum) && f == front + x
    ensures LookAt(f, |front|, sum) == Found(r, Size(r))
  {
    assert front + x <= f;
    RecordThere(f, f, front, r, sum);
  }

  /** The value of a record may hold the bytes of another. When the write of such a record fails just behind those and
      the next record ends just in front of them, a scan hands over a record that was never written. */
  lemma UnwrittenIsSeen(units: seq<Unit>, big: Rec, next: Rec, inner: Rec, pre: seq<byte>, post: seq<byte>, n: nat,
                        tol: bool, sum: Checksum)
    requires UnitsFit(units) && Writable(big) && Foldable(next) && Plain(next) && Foldable(inner) && Plain(inner)
    requires big.value == pre + RecBytes(inner, sum) + post && Size(next) == HEADER_SIZE + |big.key| + |pre|
    requires n == Size(next) + Size(inner) && |File(units, sum)| + n < OFFSETS
    ensures var f, all := AfterFailure(units, RecBytes(big, sum), n, [Single(next)], sum), units + [Single(next)];
            && UnitsFit(all)
            && Fold(f, 0, tol, sum)
                 == Done(|f|, SeenUnits(all, 0) + [Seen(inner, |File(all, sum)|, Size(inner))])
  {
    var e, x, more := RecBytes(big, sum), RecBytes(inner, sum), [Single(next)];
    var f, all := AfterFailure(units, e, n, more, sum), units + more;
    var m := LeftBehind(units, e, n, more, sum);
    SingleBytes(next, sum);
    Appended(units, Single(next), all, RecBytes(next, sum), sum);
    assert m == Size(next);
    ValueBytes(big, pre, x, post, m, n, sum);
    assert UnitFits(Single(next));
    var view, total := ViewOf(f, sum), |f|;
    ViewIsSound(f, sum);
    var o, front, seen := Fold(f, 0, tol, sum), File(all, sum), SeenUnits(all, 0);
    ScanComesTo(f, all, x, view, tol, sum, o);
    FoundThere(f, front, x, inner, sum);
    FoldSingle(view, total, |front|, inner, 0, seen, tol);
    FoldAtEnd(f, 0, seen + [Seen(inner, |front|, Size(inner))], view, tol, sum);
  }
}
