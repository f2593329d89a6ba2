/**
  What a scan makes of a file in which records were damaged (src/fileops/data_file.cpp 339-404): up to twenty of them
  are skipped, in a batch or not, and everything else is handed over.
 */
module DamagedScan {
  import opened Bytes
  import LE = LittleEndian
  import opened RecordFormat
  import opened FoldRecovery
  import opened PositionedWrites
  import RecordIntegrity

  /** A unit and which of its records are damaged. The header of a batch is not: damaged, it is no header any more, but
      a record of its own. */
  datatype Marked = Marked(u: Unit, hurt: seq<bool>)

  ghost predicate MarkedOk(m: Marked) {
    match m.u
    case Single(rec) => Foldable(rec) && |m.hurt| == 1 && (m.hurt[0] || rec.kind != BATCH_HEADER)
    case Batch(_, _, members) => UnitFits(m.u) && |m.hurt| == |members|
  }

  type Item = m: Marked | MarkedOk(m) ghost witness Marked(Single(Rec(0, 0, 0, [], [])), [false])

  /** The records of a unit in file order. */
  ghost function RecordsOf(m: Item): (recs: seq<Rec>)
    ensures recs != [] && AllFoldable(recs)
  {
    if m.u.Single? then [m.u.rec] else Records(m.u)
  }

  ghost function MarksOf(m: Item): (marks: seq<bool>)
    ensures |marks| == |RecordsOf(m)|
  {
    if m.u.Single? then m.hurt else [false] + m.hurt
  }

  // ---------------------------------------------------------------------------------------
  // The bytes
  // ---------------------------------------------------------------------------------------

  /** Here the record stands as it was written, or changed behind its back: its sizes are the same, and its checksum
      does not fit. */
  ghost predicate Stands(f: seq<byte>, at: nat, r: Rec, hurt: bool, sum: Checksum)
    requires Foldable(r)
  {
    at + Size(r) <= |f|
    && var d, e := f[at..at + Size(r)], RecBytes(r, sum);
       if hurt then d[21..27] == e[21..27] && sum(d[4..]) != LE.Get32(d, 0) else d == e
  }

  ghost predicate AllStand(f: seq<byte>, at: nat, recs: seq<Rec>, marks: seq<bool>, sum: Checksum)
    requires AllFoldable(recs) && |marks| == |recs|
    decreases |recs|, 1
  {
    recs == [] || FirstStands(f, at, recs[0], recs[1..], marks[0], marks[1..], sum)
  }

  ghost predicate FirstStands(f: seq<byte>, at: nat, r: Rec, rest: seq<Rec>, hurt: bool, others: seq<bool>,
                              sum: Checksum)
    requires Foldable(r) && AllFoldable(rest) && |others| == |rest|
    decreases |rest| + 1, 0
  {
    Stands(f, at, r, hurt, sum) && AllStand(f, at + Size(r), rest, others, sum)
  }

  /** From here on the file consists of these units, damaged as they are marked. */
  ghost predicate Holds(f: seq<byte>, at: nat, units: seq<Item>, sum: Checksum)
    decreases |units|, 1
  {
    if units == [] then at == |f| else HoldsCons(f, at, units[0], units[1..], sum)
  }

  ghost predicate HoldsCons(f: seq<byte>, at: nat, m: Item, rest: seq<Item>, sum: Checksum)
    decreases |rest| + 1, 0
  {
    AllStand(f, at, RecordsOf(m), MarksOf(m), sum) && Holds(f, at + Span(RecordsOf(m)), rest, sum)
  }

  ghost predicate ShowsMarked(view: View, at: nat, r: Rec, hurt: bool) {
    view(at) == if hurt then Damaged(Size(r)) else Found(r, Size(r))
  }

  lemma SizesOfRecord(r: Rec, e: seq<byte>, d: seq<byte>, sum: Checksum)
    requires Foldable(r) && e == RecBytes(r, sum) && |d| == |e| && d[21..27] == e[21..27]
    ensures RecordIntegrity.Announced(d) == |d|
  {
    BodyParts(r, e, sum);
    SizesBack(e, 0, r, Head(r));
    assert d[21..23] == d[21..27][..2] && e[21..23] == e[21..27][..2];
    assert d[23..27] == d[21..27][2..] && e[23..27] == e[21..27][2..];
  }

  lemma StandsShown(f: seq<byte>, at: nat, r: Rec, hurt: bool, sum: Checksum)
    requires Foldable(r) && Stands(f, at, r, hurt, sum)
    ensures ShowsMarked(ViewOf(f, sum), at, r, hurt)
  {
    var d, e := f[at..at + Size(r)], RecBytes(r, sum);
    if hurt {
      SizesOfRecord(r, e, d, sum);
      RecordIntegrity.OkExactly(d, sum);
      RecordIntegrity.TotalThere(f, at, d);
      RecordIntegrity.LookIsDamaged(f, at, d, sum);
    } else {
      FindWhole(f, at, r, e, sum);
    }
  }

  ghost predicate AllShown(view: View, total: nat, at: nat, recs: seq<Rec>, marks: seq<bool>)
    requires |marks| == |recs|
    decreases |recs|, 1
  {
    recs == [] || FirstShown(view, total, at, recs[0], recs[1..], marks[0], marks[1..])
  }

  ghost predicate FirstShown(view: View, total: nat, at: nat, r: Rec, rest: seq<Rec>, hurt: bool, others: seq<bool>)
    requires |others| == |rest|
    decreases |rest| + 1, 0
  {
    at + Size(r) <= total && ShowsMarked(view, at, r, hurt) && AllShown(view, total, at + Size(r), rest, others)
  }

  lemma {:induction false} AllStandShown(f: seq<byte>, at: nat, recs: seq<Rec>, marks: seq<bool>, view: View,
                                         sum: Checksum)
    requires AllFoldable(recs) && |marks| == |recs| && AllStand(f, at, recs, marks, sum) && view == ViewOf(f, sum)
    ensures AllShown(view, |f|, at, recs, marks)
    decreases |recs|
  {
    if recs != [] {
      assert FirstStands(f, at, recs[0], recs[1..], marks[0], marks[1..], sum);
      StandsShown(f, at, recs[0], marks[0], sum);
      AllStandShown(f, at + Size(recs[0]), recs[1..], marks[1..], view, sum);
    }
  }

  // ---------------------------------------------------------------------------------------
  // What the scan makes of it
  // ---------------------------------------------------------------------------------------

  ghost function Count(marks: seq<bool>): nat {
    if marks == [] then 0 else (if marks[0] then 1 else 0) + Count(marks[1..])
  }

  /** The calls of fn: the records that are not damaged, with their offsets. */
  ghost function Handed(recs: seq<Rec>, marks: seq<bool>, at: nat): seq<Seen>
    requires |marks| == |recs|
    decreases |recs|
  {
    if recs == [] then []
    else
      var rest := Handed(recs[1..], marks[1..], at + Size(recs[0]));
      if marks[0] then rest else [Seen(recs[0], at, Size(recs[0]))] + rest
  }

  /** So many more damaged records are put up with, after so many before. */
  predicate Tolerated(tol: bool, before: nat, more: nat) {
    more == 0 || (tol && before + more <= CRC_SKIP_LIMIT)
  }

  /** The scan behind a member of a batch. */
  ghost function AfterMarked(s: Scan, r: Rec, hurt: bool): Scan {
    var seen := if hurt then s.seen else s.seen + [Seen(r, s.offset, Size(r))];
    var errors := if hurt then s.crcErrors + 1 else s.crcErrors;
    if s.offset + Size(r) == s.until then Between(s.until, errors, seen)
    else Scan(s.offset + Size(r), s.until, s.lve, errors, seen)
  }

  lemma MarkedMember(view: View, total: nat, r: Rec, hurt: bool, s: Scan, tol: bool)
    requires Sound(view, total) && ShowsMarked(view, s.offset, r, hurt) && r.kind != BATCH_HEADER
    requires s.until != 0 && s.offset + Size(r) <= s.until <= total
    ensures FoldFrom(view, total, s, tol)
         == if hurt && !Tolerated(tol, s.crcErrors, 1) then FailedCrc
            else FoldFrom(view, total, AfterMarked(s, r, hurt), tol)
  {
    if hurt && !Tolerated(tol, s.crcErrors, 1) {
      FoldHalts(view, total, s, tol, FailedCrc);
    } else {
      FoldGoes(view, total, s, tol, AfterMarked(s, r, hurt));
    }
  }

  /** What holds of a scan that goes on over records: the same scan behind them, or failure. */
  ghost predicate GoesOnAs(view: View, total: nat, o: Outcome, tol: bool, before: nat, more: nat, next: Scan)
    requires Sound(view, total)
  {
    if Tolerated(tol, before, more) then o == FoldFrom(view, total, next, tol) else o == FailedCrc
  }

  lemma CountFirst(marks: seq<bool>, first: bool, others: seq<bool>)
    requires marks == [first] + others
    ensures Count(marks) == (if first then 1 else 0) + Count(others)
  {
    assert marks[1..] == others;
  }

  lemma HandedFirst(recs: seq<Rec>, marks: seq<bool>, at: nat, seen: seq<Seen>, mine: seq<Seen>)
    requires recs != [] && |marks| == |recs|
    requires mine == if marks[0] then seen else seen + [Seen(recs[0], at, Size(recs[0]))]
    ensures seen + Handed(recs, marks, at) == mine + Handed(recs[1..], marks[1..], at + Size(recs[0]))
  {
    var rest := Handed(recs[1..], marks[1..], at + Size(recs[0]));
    if !marks[0] {
      Joined(seen, Seen(recs[0], at, Size(recs[0])), rest);
    }
  }

  /** One record more or less. */
  lemma OneMoreHurt(view: View, total: nat, o: Outcome, tol: bool, before: nat, hurt: bool, n: nat, next: Scan)
    requires Sound(view, total)
    requires hurt && !Tolerated(tol, before, 1) ==> o == FailedCrc
    requires !hurt || Tolerated(tol, before, 1) ==>
               GoesOnAs(view, total, o, tol, if hurt then before + 1 else before, n, next)
    ensures GoesOnAs(view, total, o, tol, before, (if hurt then 1 else 0) + n, next)
  {
  }

  /** All members of a batch. */
  lemma {:induction false} MarkedMembers(view: View, total: nat, recs: seq<Rec>, marks: seq<bool>, s: Scan, tol: bool,
                                         o: Outcome)
    requires Sound(view, total) && |marks| == |recs| > 0 && AllShown(view, total, s.offset, recs, marks)
    requires s.until == s.offset + Span(recs) <= total && forall i :: 0 <= i < |recs| ==> recs[i].kind != BATCH_HEADER
    requires o == FoldFrom(view, total, s, tol)
    ensures GoesOnAs(view, total, o, tol, s.crcErrors, Count(marks),
                     Between(s.until, s.crcErrors + Count(marks), s.seen + Handed(recs, marks, s.offset)))
    decreases |recs|
  {
    var r, rest, hurt, others := recs[0], recs[1..], marks[0], marks[1..];
    assert Span(recs) == SpanCons(r, rest);
    assert FirstShown(view, total, s.offset, r, rest, hurt, others);
    MarkedMember(view, total, r, hurt, s, tol);
    var next := AfterMarked(s, r, hurt);
    assert marks == [hurt] + others;
    CountFirst(marks, hurt, others);
    HandedFirst(recs, marks, s.offset, s.seen, next.seen);
    var end := Between(s.until, s.crcErrors + Count(marks), s.seen + Handed(recs, marks, s.offset));
    if rest == [] {
      assert others == [] && next.seen + [] == next.seen;
      assert next == end;
    } else if !hurt || Tolerated(tol, s.crcErrors, 1) {
      assert Span(rest) == SpanCons(rest[0], rest[1..]);
      MarkedMembers(view, total, rest, others, next, tol, o);
    }
    OneMoreHurt(view, total, o, tol, s.crcErrors, hurt, Count(others), end);
  }

  lemma HeaderGoes(view: View, total: nat, h: Rec, b: BatchInfo, s: Scan, until: nat, tol: bool)
    requires Sound(view, total) && view(s.offset) == Found(h, Size(h)) && s.until == 0
    requires h.kind == BATCH_HEADER && DecodeBatch(h.value) == Some(b) && b.span > 0
    requires until == s.offset + Size(h) + b.span <= total < OFFSETS
    ensures FoldFrom(view, total, s, tol)
         == FoldFrom(view, total, Scan(s.offset + Size(h), until, s.lve, s.crcErrors,
                                       s.seen + [Seen(h, s.offset, Size(h))]), tol)
  {
    FoldGoes(view, total, s, tol, Scan(s.offset + Size(h), until, s.lve, s.crcErrors,
                                       s.seen + [Seen(h, s.offset, Size(h))]));
  }

  /** A batch is its header and its members. */
  lemma BatchShown(view: View, total: nat, m: Item, at: nat) returns (h: Rec, b: BatchInfo)
    requires m.u.Batch? && AllShown(view, total, at, RecordsOf(m), MarksOf(m))
    ensures h.kind == BATCH_HEADER && DecodeBatch(h.value) == Some(b) && b.span as int == Span(m.u.members) > 0
    ensures view(at) == Found(h, Size(h)) && AllShown(view, total, at + Size(h), m.u.members, m.hurt)
    ensures RecordsOf(m)[0] == h && RecordsOf(m)[1..] == m.u.members
    ensures MarksOf(m) == [false] + m.hurt && Span(RecordsOf(m)) == Size(h) + Span(m.u.members)
  {
    h, b := BatchRecords(m.u);
    var members := m.u.members;
    assert MarksOf(m)[1..] == m.hurt;
    assert Span(RecordsOf(m)) == SpanCons(h, members);
    assert FirstShown(view, total, at, h, members, false, m.hurt);
    assert Span(members) == SpanCons(members[0], members[1..]);
  }

  lemma MarkedBatch(view: View, total: nat, m: Item, s: Scan, tol: bool, o: Outcome)
    requires m.u.Batch? && Sound(view, total) && s.until == 0 && total < OFFSETS
    requires AllShown(view, total, s.offset, RecordsOf(m), MarksOf(m)) && s.offset + Span(RecordsOf(m)) <= total
    requires o == FoldFrom(view, total, s, tol)
    ensures var end, n := s.offset + Span(RecordsOf(m)), Count(MarksOf(m));
            GoesOnAs(view, total, o, tol, s.crcErrors, n,
                     Between(end, s.crcErrors + n, s.seen + Handed(RecordsOf(m), MarksOf(m), s.offset)))
  {
    var h, b := BatchShown(view, total, m, s.offset);
    var members := m.u.members;
    var until := s.offset + Size(h) + Span(members);
    HeaderGoes(view, total, h, b, s, until, tol);
    var next := Scan(s.offset + Size(h), until, s.lve, s.crcErrors, s.seen + [Seen(h, s.offset, Size(h))]);
    MarkedMembers(view, total, members, m.hurt, next, tol, o);
    HandedFirst(RecordsOf(m), MarksOf(m), s.offset, s.seen, next.seen);
    CountFirst(MarksOf(m), false, m.hurt);
  }

  lemma MarkedSingle(view: View, total: nat, m: Item, s: Scan, tol: bool, o: Outcome)
    requires m.u.Single? && Sound(view, total) && s.until == 0
    requires ShowsMarked(view, s.offset, m.u.rec, m.hurt[0]) && o == FoldFrom(view, total, s, tol)
    ensures var end, r := s.offset + Size(m.u.rec), m.u.rec;
            if m.hurt[0] then GoesOnAs(view, total, o, tol, s.crcErrors, 1,
                                       Scan(end, 0, s.lve, s.crcErrors + 1, s.seen))
            else o == FoldFrom(view, total, Between(end, s.crcErrors, s.seen + [Seen(r, s.offset, Size(r))]), tol)
  {
    var r := m.u.rec;
    var end := s.offset + Size(r);
    if !m.hurt[0] {
      FoldGoes(view, total, s, tol, Between(end, s.crcErrors, s.seen + [Seen(r, s.offset, Size(r))]));
    } else if Tolerated(tol, s.crcErrors, 1) {
      FoldGoes(view, total, s, tol, Scan(end, 0, s.lve, s.crcErrors + 1, s.seen));
    } else {
      FoldHalts(view, total, s, tol, FailedCrc);
    }
  }

  /** The valid end behind a unit: a batch ends what is valid even if its last member is damaged, a damaged record on
      its own leaves it where it was. */
  ghost function EndOf(m: Item, at: nat, lve: nat): nat
  {
    if m.u.Single? && m.hurt[0] then lve else at + Span(RecordsOf(m))
  }

  /** The scan behind a unit. */
  ghost function AfterUnit(m: Item, s: Scan): Scan
  {
    Scan(s.offset + Span(RecordsOf(m)), 0, EndOf(m, s.offset, s.lve), s.crcErrors + Count(MarksOf(m)),
         s.seen + Handed(RecordsOf(m), MarksOf(m), s.offset))
  }

  lemma OneRecord(r: Rec, hurt: bool, at: nat)
    ensures Span([r]) == Size(r) && Count([hurt]) == (if hurt then 1 else 0)
    ensures Handed([r], [hurt], at) == if hurt then [] else [Seen(r, at, Size(r))]
  {
    assert [hurt][1..] == [] && [r][1..] == [];
    assert Span([r]) == SpanCons(r, []);
  }

  lemma AfterSingle(m: Item, r: Rec, hurt: bool, s: Scan)
    requires m.u == Single(r) && m.hurt == [hurt]
    ensures Count(MarksOf(m)) == (if hurt then 1 else 0)
    ensures AfterUnit(m, s) == if hurt then Scan(s.offset + Size(r), 0, s.lve, s.crcErrors + 1, s.seen)
                               else Between(s.offset + Size(r), s.crcErrors, s.seen + [Seen(r, s.offset, Size(r))])
  {
    OneRecord(r, hurt, s.offset);
    assert RecordsOf(m) == [r] && MarksOf(m) == [hurt];
    assert s.seen + [] == s.seen;
  }

  lemma SingleShown(view: View, total: nat, at: nat, r: Rec, hurt: bool)
    requires AllShown(view, total, at, [r], [hurt])
    ensures ShowsMarked(view, at, r, hurt)
  {
    assert FirstShown(view, total, at, r, [r][1..], hurt, [hurt][1..]);
  }

  lemma MarkedUnit(view: View, total: nat, m: Item, s: Scan, tol: bool, o: Outcome)
    requires Sound(view, total) && s.until == 0 && total < OFFSETS
    requires AllShown(view, total, s.offset, RecordsOf(m), MarksOf(m)) && s.offset + Span(RecordsOf(m)) <= total
    requires o == FoldFrom(view, total, s, tol)
    ensures GoesOnAs(view, total, o, tol, s.crcErrors, Count(MarksOf(m)), AfterUnit(m, s))
  {
    if m.u.Batch? {
      MarkedBatch(view, total, m, s, tol, o);
    } else {
      var r, hurt := m.u.rec, m.hurt[0];
      assert m.hurt == [hurt];
      SingleShown(view, total, s.offset, r, hurt);
      AfterSingle(m, r, hurt, s);
      MarkedSingle(view, total, m, s, tol, o);
    }
  }

  // ---------------------------------------------------------------------------------------
  // The theorem
  // ---------------------------------------------------------------------------------------

  ghost function CountAll(units: seq<Item>): nat
    decreases |units|, 1
  {
    if units == [] then 0 else CountCons(units[0], units[1..])
  }

  ghost function CountCons(m: Item, rest: seq<Item>): nat
    decreases |rest| + 1, 0
  {
    Count(MarksOf(m)) + CountAll(rest)
  }

  /** All records that are not damaged, in order and with their offsets. */
  ghost function HandedAll(units: seq<Item>, at: nat): seq<Seen>
    decreases |units|, 1
  {
    if units == [] then [] else HandedCons(units[0], units[1..], at)
  }

  ghost function HandedCons(m: Item, rest: seq<Item>, at: nat): seq<Seen>
    decreases |rest| + 1, 0
  {
    Handed(RecordsOf(m), MarksOf(m), at) + HandedAll(rest, at + Span(RecordsOf(m)))
  }

  /** The end of the last unit that is not a damaged record on its own. */
  ghost function ValidEnd(units: seq<Item>, at: nat, lve: nat): nat
    decreases |units|, 1
  {
    if units == [] then lve else EndCons(units[0], units[1..], at, lve)
  }

  ghost function EndCons(m: Item, rest: seq<Item>, at: nat, lve: nat): nat
    decreases |rest| + 1, 0
  {
    ValidEnd(rest, at + Span(RecordsOf(m)), EndOf(m, at, lve))
  }

  lemma {:induction false} EndsInside(f: seq<byte>, at: nat, recs: seq<Rec>, marks: seq<bool>, sum: Checksum)
    requires AllFoldable(recs) && |marks| == |recs| > 0 && AllStand(f, at, recs, marks, sum)
    ensures at + Span(recs) <= |f|
    decreases |recs|
  {
    var rest := recs[1..];
    assert Span(recs) == SpanCons(recs[0], rest);
    assert FirstStands(f, at, recs[0], rest, marks[0], marks[1..], sum);
    if rest != [] {
      EndsInside(f, at + Size(recs[0]), rest, marks[1..], sum);
    }
  }

  /** What the scan comes to if n more damaged records are ahead. */
  ghost predicate Ends(o: Outcome, tol: bool, before: nat, n: nat, lve: nat, calls: seq<Seen>) {
    o == if Tolerated(tol, before, n) then Done(lve, calls) else FailedCrc
  }

  /** The totals of all units are those of the first and of the others. */
  lemma Totals(m: Item, rest: seq<Item>, s: Scan, next: Scan)
      returns (first: nat, n: nat, lve: nat, calls: seq<Seen>)
    requires next == AfterUnit(m, s)
    ensures first == Count(MarksOf(m)) && next.crcErrors == s.crcErrors + first
    ensures n == CountAll(rest) && CountCons(m, rest) == first + n
    ensures lve == ValidEnd(rest, next.offset, next.lve) == EndCons(m, rest, s.offset, s.lve)
    ensures calls == next.seen + HandedAll(rest, next.offset) == s.seen + HandedCons(m, rest, s.offset)
  {
    first, n := Count(MarksOf(m)), CountAll(rest);
    lve, calls := ValidEnd(rest, next.offset, next.lve), next.seen + HandedAll(rest, next.offset);
    Rejoined(s.seen, Handed(RecordsOf(m), MarksOf(m), s.offset), HandedAll(rest, next.offset));
  }

  lemma EndsNext(o: Outcome, tol: bool, before: nat, first: nat, n: nat, lve: nat, calls: seq<Seen>)
    requires if Tolerated(tol, before, first) then Ends(o, tol, before + first, n, lve, calls) else o == FailedCrc
    ensures Ends(o, tol, before, first + n, lve, calls)
  {
  }

  lemma FirstUnit(f: seq<byte>, m: Item, s: Scan, view: View, tol: bool, sum: Checksum, o: Outcome)
      returns (next: Scan, goes: bool)
    requires AllStand(f, s.offset, RecordsOf(m), MarksOf(m), sum) && |f| < OFFSETS && s.until == 0
    requires view == ViewOf(f, sum) && Sound(view, |f|) && o == FoldFrom(view, |f|, s, tol)
    ensures next == AfterUnit(m, s) && goes == Tolerated(tol, s.crcErrors, Count(MarksOf(m)))
    ensures next.offset == s.offset + Span(RecordsOf(m)) && next.until == 0
    ensures if goes then o == FoldFrom(view, |f|, next, tol) else o == FailedCrc
  {
    next, goes := AfterUnit(m, s), Tolerated(tol, s.crcErrors, Count(MarksOf(m)));
    AllStandShown(f, s.offset, RecordsOf(m), MarksOf(m), view, sum);
    EndsInside(f, s.offset, RecordsOf(m), MarksOf(m), sum);
    MarkedUnit(view, |f|, m, s, tol, o);
  }

  lemma NothingLeft(f: seq<byte>, s: Scan, view: View, tol: bool, sum: Checksum)
    requires view == ViewOf(f, sum) && Sound(view, |f|) && s.offset == |f|
    ensures FoldFrom(view, |f|, s, tol) == Done(s.lve, s.seen)
  {
    FoldHalts(view, |f|, s, tol, Done(s.lve, s.seen));
  }

  lemma {:induction false} MarkedUnits(f: seq<byte>, units: seq<Item>, s: Scan, view: View, tol: bool, sum: Checksum,
                                       o: Outcome)
    requires Holds(f, s.offset, units, sum) && |f| < OFFSETS && s.until == 0
    requires view == ViewOf(f, sum) && Sound(view, |f|) && o == FoldFrom(view, |f|, s, tol)
    ensures Ends(o, tol, s.crcErrors, CountAll(units), ValidEnd(units, s.offset, s.lve),
                 s.seen + HandedAll(units, s.offset))
    decreases |units|, 1
  {
    if units == [] {
      NothingLeft(f, s, view, tol, sum);
      assert s.seen + [] == s.seen;
    } else {
      MarkedCons(f, units[0], units[1..], s, view, tol, sum, o);
    }
  }

  lemma {:induction false} MarkedCons(f: seq<byte>, m: Item, rest: seq<Item>, s: Scan, view: View, tol: bool,
                                      sum: Checksum, o: Outcome)
    requires HoldsCons(f, s.offset, m, rest, sum) && |f| < OFFSETS && s.until == 0
    requires view == ViewOf(f, sum) && Sound(view, |f|) && o == FoldFrom(view, |f|, s, tol)
    ensures Ends(o, tol, s.crcErrors, CountCons(m, rest), EndCons(m, rest, s.offset, s.lve),
                 s.seen + HandedCons(m, rest, s.offset))
    decreases |rest| + 1, 0
  {
    var next, goes := GoesToRest(f, m, rest, s, view, tol, sum, o);
    if goes {
      MarkedUnits(f, rest, next, view, tol, sum, o);
    }
    Composed(m, rest, s, tol, o, next, goes);
  }

  lemma GoesToRest(f: seq<byte>, m: Item, rest: seq<Item>, s: Scan, view: View, tol: bool, sum: Checksum, o: Outcome)
      returns (next: Scan, goes: bool)
    requires HoldsCons(f, s.offset, m, rest, sum) && |f| < OFFSETS && s.until == 0
    requires view == ViewOf(f, sum) && Sound(view, |f|) && o == FoldFrom(view, |f|, s, tol)
    ensures next == AfterUnit(m, s) && goes == Tolerated(tol, s.crcErrors, Count(MarksOf(m)))
    ensures Holds(f, next.offset, rest, sum) && next.until == 0
    ensures if goes then o == FoldFrom(view, |f|, next, tol) else o == FailedCrc
  {
    next, goes := FirstUnit(f, m, s, view, tol, sum, o);
  }

  lemma Composed(m: Item, rest: seq<Item>, s: Scan, tol: bool, o: Outcome, next: Scan, goes: bool)
    requires next == AfterUnit(m, s) && goes == Tolerated(tol, s.crcErrors, Count(MarksOf(m)))
    requires if goes then Ends(o, tol, next.crcErrors, CountAll(rest), ValidEnd(rest, next.offset, next.lve),
                               next.seen + HandedAll(rest, next.offset))
             else o == FailedCrc
    ensures Ends(o, tol, s.crcErrors, CountCons(m, rest), EndCons(m, rest, s.offset, s.lve),
                 s.seen + HandedCons(m, rest, s.offset))
  {
    var first, n, lve, calls := Totals(m, rest, s, next);
    EndsNext(o, tol, s.crcErrors, first, n, lve, calls);
  }

  /** A file of units in which records were damaged, single ones or members of batches: if damage is tolerated and there
      are at most twenty, or none at all, a scan hands over exactly all other records; otherwise it fails. */
  lemma DamageIsSkipped(f: seq<byte>, units: seq<Item>, tol: bool, sum: Checksum)
    requires Holds(f, 0, units, sum) && |f| < OFFSETS
    ensures Fold(f, 0, tol, sum)
         == if CountAll(units) == 0 || (tol && CountAll(units) <= 20)
            then Done(ValidEnd(units, 0, 0), HandedAll(units, 0)) else FailedCrc
  {
    ViewIsSound(f, sum);
    MarkedUnits(f, units, Between(0, 0, []), ViewOf(f, sum), tol, sum, Fold(f, 0, tol, sum));
    assert [] + HandedAll(units, 0) == HandedAll(units, 0);
  }

  lemma {:induction false} EndIsInside(f: seq<byte>, at: nat, units: seq<Item>, lve: nat, sum: Checksum)
    requires Holds(f, at, units, sum) && lve <= at <= |f|
    ensures lve <= ValidEnd(units, at, lve) <= |f|
    decreases |units|, 1
  {
    if units != [] {
      EndConsInside(f, at, units[0], units[1..], lve, sum);
    }
  }

  lemma {:induction false} EndConsInside(f: seq<byte>, at: nat, m: Item, rest: seq<Item>, lve: nat, sum: Checksum)
    requires HoldsCons(f, at, m, rest, sum) && lve <= at <= |f|
    ensures lve <= EndCons(m, rest, at, lve) <= |f|
    decreases |rest| + 1, 0
  {
    EndsInside(f, at, RecordsOf(m), MarksOf(m), sum);
    EndIsInside(f, at + Span(RecordsOf(m)), rest, EndOf(m, at, lve), sum);
  }

  /** A recovery cuts off only what is behind the last intact unit or batch; with more damage it cuts off nothing. */
  lemma RecoveryOfDamaged(f: seq<byte>, units: seq<Item>, sum: Checksum)
    requires Holds(f, 0, units, sum) && |f| < OFFSETS
    ensures ValidEnd(units, 0, 0) <= |f|
    ensures Truncated(f, sum) == if CountAll(units) <= 20 then f[..ValidEnd(units, 0, 0)] else f
  {
    DamageIsSkipped(f, units, true, sum);
    EndIsInside(f, 0, units, 0, sum);
    if ValidEnd(units, 0, 0) == |f| {
      assert f[..|f|] == f;
    }
  }

  /** If the last unit is a batch or intact, nothing is cut off. */
  lemma {:induction false} EndsWithGood(f: seq<byte>, at: nat, units: seq<Item>, lve: nat, sum: Checksum)
    requires Holds(f, at, units, sum) && units != []
    requires var m := units[|units| - 1]; m.u.Batch? || m.hurt == [false]
    ensures ValidEnd(units, at, lve) == |f|
    decreases |units|, 1
  {
    GoodAtTheEnd(f, at, units[0], units[1..], lve, units, sum);
  }

  lemma {:induction false} GoodAtTheEnd(f: seq<byte>, at: nat, m: Item, rest: seq<Item>, lve: nat, units: seq<Item>,
                                        sum: Checksum)
    requires HoldsCons(f, at, m, rest, sum) && units != [] && m == units[0] && rest == units[1..]
    requires var last := units[|units| - 1]; last.u.Batch? || last.hurt == [false]
    ensures EndCons(m, rest, at, lve) == |f|
    decreases |rest| + 1, 0
  {
    if rest != [] {
      assert rest[|rest| - 1] == units[|units| - 1];
      EndsWithGood(f, at + Span(RecordsOf(m)), rest, EndOf(m, at, lve), sum);
    }
  }

  // ---------------------------------------------------------------------------------------
  // A damaged header
  // ---------------------------------------------------------------------------------------

  /** Intact records, each on its own. */
  ghost function Lone(recs: seq<Rec>): seq<Item>
    requires AllPlain(recs)
    decreases |recs|, 1
  {
    if recs == [] then [] else LoneCons(recs[0], recs[1..])
  }

  ghost function LoneCons(r: Rec, rest: seq<Rec>): seq<Item>
    requires Foldable(r) && r.kind != BATCH_HEADER && AllPlain(rest)
    decreases |rest| + 1, 0
  {
    [Marked(Single(r), [false])] + Lone(rest)
  }

  ghost predicate AllPlain(recs: seq<Rec>) {
    forall i :: 0 <= i < |recs| ==> Foldable(recs[i]) && recs[i].kind != BATCH_HEADER
  }

  lemma {:induction false} LoneOk(recs: seq<Rec>)
    requires AllPlain(recs)
    ensures CountAll(Lone(recs)) == 0
    decreases |recs|
  {
    if recs != [] {
      var m := Marked(Single(recs[0]), [false]);
      assert Lone(recs) == LoneCons(recs[0], recs[1..]);
      LoneOk(recs[1..]);
      OneRecord(recs[0], false, 0);
      assert MarksOf(m) == [false] && Lone(recs)[1..] == Lone(recs[1..]);
    }
  }

  /** What a scan finds of them. */
  lemma {:induction false} LoneSeen(recs: seq<Rec>, at: nat, lve: nat)
    requires AllPlain(recs)
    ensures HandedAll(Lone(recs), at) == SeenOf(recs, at)
    ensures ValidEnd(Lone(recs), at, lve) == if recs == [] then lve else at + Span(recs)
    decreases |recs|
  {
    LoneOk(recs);
    if recs != [] {
      var r, rest := recs[0], recs[1..];
      var m := Marked(Single(r), [false]);
      assert Lone(recs)[0] == m && Lone(recs)[1..] == Lone(rest);
      assert RecordsOf(m) == [r] && MarksOf(m) == [false];
      OneRecord(r, false, at);
      LoneSeen(rest, at + Size(r), at + Size(r));
      assert Span(recs) == SpanCons(r, rest);
      assert SeenOf(recs, at) == SeenCons(r, rest, at);
    }
  }

  lemma LoneStands(f: seq<byte>, front: seq<byte>, r: Rec, sum: Checksum)
    requires Foldable(r) && front + RecBytes(r, sum) <= f
    ensures AllStand(f, |front|, [r], [false], sum)
  {
    NotCut(f, f, front, RecBytes(r, sum));
    assert [r][1..] == [] && [false][1..] == [];
    assert FirstStands(f, |front|, r, [r][1..], false, [false][1..], sum);
  }

  lemma {:induction false} LoneHolds(f: seq<byte>, front: seq<byte>, recs: seq<Rec>, sum: Checksum)
    requires AllPlain(recs) && f == front + RecsBytes(recs, sum)
    ensures Holds(f, |front|, Lone(recs), sum)
    decreases |recs|
  {
    LoneOk(recs);
    if recs != [] {
      var r, rest := recs[0], recs[1..];
      var m, e := Marked(Single(r), [false]), RecBytes(r, sum);
      assert RecsBytes(recs, sum) == RecsCons(r, rest, sum);
      assert f == (front + e) + RecsBytes(rest, sum);
      assert Lone(recs)[0] == m && Lone(recs)[1..] == Lone(rest);
      assert RecordsOf(m) == [r] && MarksOf(m) == [false];
      OneRecord(r, false, 0);
      LoneStands(f, front, r, sum);
      LoneHolds(f, front + e, rest, sum);
    }
  }

  /** With its header damaged a batch is no batch any more: whatever of its members a crash has left is handed over, be
      it only a part of them. */
  lemma PartOfBatchIsSeen(f: seq<byte>, u: Unit, j: nat, d: seq<byte>, sum: Checksum)
    requires UnitFits(u) && u.Batch? && 0 < j <= |u.members| && |f| < OFFSETS
    requires f == d + RecsBytes(u.members[..j], sum) && |d| == Size(HeaderOf(u))
    requires d[21..27] == RecBytes(HeaderOf(u), sum)[21..27] && sum(d[4..]) != LE.Get32(d, 0)
    ensures Fold(f, 0, true, sum) == Done(|f|, SeenOf(u.members[..j], |d|))
  {
    var h, some := HeaderOf(u), u.members[..j];
    MembersArePlain(u);
    var first := Marked(Single(h), [true]);
    var units: seq<Item> := [first] + Lone(some);
    LoneOk(some);
    LoneHolds(f, d, some, sum);
    LoneSeen(some, |d|, 0);
    RecsLength(some, sum);
    assert units[0] == first && units[1..] == Lone(some);
    HeaderStands(f, h, d, sum);
    OneRecord(h, true, 0);
    assert RecordsOf(first) == [h] && MarksOf(first) == [true];
    DamageIsSkipped(f, units, true, sum);
    assert [] + SeenOf(some, |d|) == SeenOf(some, |d|);
  }

  lemma MembersArePlain(u: Unit)
    requires UnitFits(u) && u.Batch?
    ensures AllPlain(u.members)
  {
    forall i | 0 <= i < |u.members| ensures Foldable(u.members[i]) {
      assert Records(u)[i + 1] == u.members[i];
    }
  }

  lemma HeaderStands(f: seq<byte>, h: Rec, d: seq<byte>, sum: Checksum)
    requires Foldable(h) && d <= f && |d| == Size(h)
    requires d[21..27] == RecBytes(h, sum)[21..27] && sum(d[4..]) != LE.Get32(d, 0)
    ensures AllStand(f, 0, [h], [true], sum)
  {
    assert f[0..0 + Size(h)] == d;
    assert [h][1..] == [] && [true][1..] == [];
    assert FirstStands(f, 0, h, [h][1..], true, [true][1..], sum);
  }
}
