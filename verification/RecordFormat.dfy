/**
  The record of a data file (include/bitcask/format.hpp, src/fileops/codec.cpp): checksum, type, time,
  ord, sizes, key and value; and the value of the record that announces an atomic batch. The checksum is
  any function of the bytes; the store uses CRC-32.
 */
module RecordFormat {
  import opened Bytes
  import LE = LittleEndian

  type Checksum = seq<byte> -> uint32

  const HEADER_SIZE: nat := 27
  const BATCH_HEADER: byte := 2
  const BATCH_VERSION: byte := 1
  const BATCH_VALUE_SIZE: nat := 13

  datatype Rec = Rec(kind: byte, tstamp: uint64, ord: uint64, key: seq<byte>, value: seq<byte>)

  predicate Writable(r: Rec) {
    |r.key| <= 0xFFFF && |r.value| <= 0xFFFF_FFFF
  }

  /** Small enough for the 32-bit sum of its sizes. */
  predicate Foldable(r: Rec) {
    Writable(r) && HEADER_SIZE + |r.key| + |r.value| < 0x1_0000_0000
  }

  function Size(r: Rec): nat {
    HEADER_SIZE + |r.key| + |r.value|
  }

  /** Type, time, ord and sizes. */
  function Head(r: Rec): (h: seq<byte>)
    requires Writable(r)
    ensures |h| == 23
  {
    [r.kind] + LE.Put64(r.tstamp) + LE.Put64(r.ord) + LE.Put16(|r.key|) + LE.Put32(|r.value|)
  }

  /** Everything behind the checksum. */
  function Covered(r: Rec): (c: seq<byte>)
    requires Writable(r)
    ensures |c| == 23 + |r.key| + |r.value|
  {
    Head(r) + (r.key + r.value)
  }

  function RecBytes(r: Rec, sum: Checksum): (e: seq<byte>)
    requires Writable(r)
    ensures |e| == Size(r)
  {
    LE.Put32(sum(Covered(r))) + Covered(r)
  }

  datatype Decoded = BufferTooShort | BadCrc | Ok(rec: Rec)

  function DecodeRecord(buf: seq<byte>, sum: Checksum): Decoded {
    if |buf| < HEADER_SIZE then BufferTooShort
    else
      var k, v := LE.Get16(buf, 21), LE.Get32(buf, 23);
      if |buf| < HEADER_SIZE + k + v as int then BufferTooShort
      else if sum(buf[4..HEADER_SIZE + k + v as int]) != LE.Get32(buf, 0) then BadCrc
      else Ok(Rec(buf[4], LE.Get64(buf, 5), LE.Get64(buf, 13), buf[HEADER_SIZE..HEADER_SIZE + k],
                  buf[HEADER_SIZE + k..HEADER_SIZE + k + v as int]))
  }

  /** What stands at an offset: nothing complete; a record; a complete one with a wrong checksum; or sizes
      whose 32-bit sum is wrong, which reads as a record cut short. */
  datatype Look = End | Short | Damaged(size: nat) | Found(rec: Rec, size: nat)

  /** The two sizes as the loop adds them up, in 32 bits. */
  function TotalAt(f: seq<byte>, at: nat): uint32
    requires at + HEADER_SIZE <= |f|
  {
    (HEADER_SIZE + LE.Get16(f, at + 21) + LE.Get32(f, at + 23) as int) % 0x1_0000_0000
  }

  function LookAt(f: seq<byte>, at: nat, sum: Checksum): (r: Look)
    ensures r.Damaged? || r.Found? ==> r.size >= HEADER_SIZE && at + r.size <= |f|
  {
    if at + HEADER_SIZE > |f| then End
    else
      var total := TotalAt(f, at);
      if at + total > |f| then End
      else
        DecodeSize(f, at, total, sum);
        match DecodeRecord(f[at..at + total], sum)
        case BufferTooShort => Short
        case BadCrc => Damaged(total)
        case Ok(rec) => Found(rec, total)
  }

  lemma DecodeSize(f: seq<byte>, at: nat, total: nat, sum: Checksum)
    requires at + total <= |f|
    ensures DecodeRecord(f[at..at + total], sum) != BufferTooShort ==> total >= HEADER_SIZE
  {
  }

  // ---------------------------------------------------------------------------------------
  // Round trip
  // ---------------------------------------------------------------------------------------

  lemma HeadParts(r: Rec, h: seq<byte>)
    requires Writable(r) && h == Head(r)
    ensures h[0] == r.kind && h[1..9] == LE.Put64(r.tstamp) && h[9..17] == LE.Put64(r.ord)
    ensures h[17..19] == LE.Put16(|r.key|) && h[19..23] == LE.Put32(|r.value|)
  {
    var a := [r.kind] + LE.Put64(r.tstamp);
    var b := a + LE.Put64(r.ord);
    var c := b + LE.Put16(|r.key|);
    assert h == c + LE.Put32(|r.value|);
    assert h[19..23] == LE.Put32(|r.value|) && h[17..19] == c[17..19] && h[9..17] == b[9..17] && h[1..9] == a[1..9];
  }

  lemma Within(e: seq<byte>, part: seq<byte>, at: nat, a: nat, b: nat)
    requires at + |part| <= |e| && e[at..at + |part|] == part && a <= b <= |part|
    ensures e[at + a..at + b] == part[a..b]
  {
    forall k | 0 <= k < b - a ensures e[at + a..at + b][k] == part[a..b][k] {
      assert part[a + k] == e[at..at + |part|][a + k];
    }
  }

  lemma BodyParts(r: Rec, e: seq<byte>, sum: Checksum)
    requires Writable(r) && e == RecBytes(r, sum)
    ensures e[0..4] == LE.Put32(sum(Covered(r))) && e[4..] == Covered(r) && e[4..27] == Head(r)
    ensures e[27..27 + |r.key|] == r.key && e[27 + |r.key|..27 + |r.key| + |r.value|] == r.value
  {
    var c := Covered(r);
    assert e[4..] == c;
    assert e[4..27] == c[0..23] == Head(r);
    assert e[27..27 + |r.key|] == c[23..23 + |r.key|] == r.key;
    assert e[27 + |r.key|..27 + |r.key| + |r.value|] == c[23 + |r.key|..] == r.value;
  }

  /** The sizes are where the loop looks for them. */
  lemma SizesBack(f: seq<byte>, at: nat, r: Rec, h: seq<byte>)
    requires Writable(r) && h == Head(r) && at + HEADER_SIZE <= |f| && f[at + 4..at + HEADER_SIZE] == h
    ensures LE.Get16(f, at + 21) as int == |r.key| && LE.Get32(f, at + 23) as int == |r.value|
  {
    HeadParts(r, h);
    Within(f, h, at + 4, 17, 19);
    Within(f, h, at + 4, 19, 23);
    LE.GetPut16(|r.key|, f, at + 21);
    LE.GetPut32(|r.value|, f, at + 23);
  }

  lemma TimesBack(e: seq<byte>, r: Rec, h: seq<byte>)
    requires Writable(r) && h == Head(r) && HEADER_SIZE <= |e| && e[4..HEADER_SIZE] == h
    ensures e[4] == r.kind && LE.Get64(e, 5) == r.tstamp && LE.Get64(e, 13) == r.ord
  {
    HeadParts(r, h);
    assert e[4] == e[4..HEADER_SIZE][0];
    Within(e, h, 4, 1, 9);
    Within(e, h, 4, 9, 17);
    LE.GetPut64(r.tstamp, e, 5);
    LE.GetPut64(r.ord, e, 13);
  }

  /** Decoding undoes encoding. */
  lemma DecodeUndoesEncode(r: Rec, e: seq<byte>, sum: Checksum)
    requires Writable(r) && e == RecBytes(r, sum)
    ensures DecodeRecord(e, sum) == Ok(r)
  {
    BodyParts(r, e, sum);
    SizesBack(e, 0, r, Head(r));
    TimesBack(e, r, Head(r));
    LE.GetPut32(sum(Covered(r)), e, 0);
    assert e[4..|e|] == e[4..];
  }

  /** Which bytes of a record hold what. */
  lemma RecordLayout(r: Rec, e: seq<byte>, sum: Checksum)
    requires Writable(r) && e == RecBytes(r, sum)
    ensures |e| == 27 + |r.key| + |r.value| && LE.Get32(e, 0) == sum(e[4..])
    ensures e[4] == r.kind && LE.Get64(e, 5) == r.tstamp && LE.Get64(e, 13) == r.ord
    ensures LE.Get16(e, 21) as int == |r.key| && LE.Get32(e, 23) as int == |r.value|
    ensures e[27..27 + |r.key|] == r.key && e[27 + |r.key|..] == r.value
  {
    BodyParts(r, e, sum);
    SizesBack(e, 0, r, Head(r));
    TimesBack(e, r, Head(r));
    LE.GetPut32(sum(Covered(r)), e, 0);
    assert e[27 + |r.key|..] == e[27 + |r.key|..27 + |r.key| + |r.value|];
  }

  lemma TotalBack(f: seq<byte>, at: nat, r: Rec, e: seq<byte>, sum: Checksum)
    requires Writable(r) && e == RecBytes(r, sum) && at + |e| <= |f| && f[at..at + |e|] == e
    ensures TotalAt(f, at) == Size(r) % 0x1_0000_0000
  {
    BodyParts(r, e, sum);
    Within(f, e, at, 4, 27);
    SizesBack(f, at, r, Head(r));
  }

  /** A complete record is found. */
  lemma FindWhole(f: seq<byte>, at: nat, r: Rec, e: seq<byte>, sum: Checksum)
    requires Foldable(r) && e == RecBytes(r, sum) && at + |e| <= |f| && f[at..at + |e|] == e
    ensures LookAt(f, at, sum) == Found(r, |e|)
  {
    TotalBack(f, at, r, e, sum);
    DecodeUndoesEncode(r, e, sum);
    LookIs(f, at, e, r, sum);
  }

  lemma LookIs(f: seq<byte>, at: nat, e: seq<byte>, r: Rec, sum: Checksum)
    requires |e| >= HEADER_SIZE && at + |e| <= |f| && f[at..at + |e|] == e
    requires TotalAt(f, at) as int == |e| && DecodeRecord(e, sum) == Ok(r)
    ensures LookAt(f, at, sum) == Found(r, |e|)
  {
  }

  /** Part of a record is nothing. */
  lemma FindPart(f: seq<byte>, at: nat, r: Rec, e: seq<byte>, sum: Checksum)
    requires Foldable(r) && e == RecBytes(r, sum) && at <= |f| < at + |e| && f[at..] <= e
    ensures LookAt(f, at, sum) == End
  {
    if at + HEADER_SIZE <= |f| {
      BodyParts(r, e, sum);
      assert f[at + 4..at + 27] == f[at..][4..27] == e[4..27];
      SizesBack(f, at, r, Head(r));
    }
  }

  /** A record of 2^32 bytes or more can be written, but a loop that comes to it fails. */
  lemma TooLargeToFold(f: seq<byte>, at: nat, r: Rec, e: seq<byte>, sum: Checksum)
    requires Writable(r) && !Foldable(r) && e == RecBytes(r, sum) && at + |e| <= |f| && f[at..at + |e|] == e
    ensures LookAt(f, at, sum) == Short
  {
    BodyParts(r, e, sum);
    Within(f, e, at, 4, 27);
    SizesBack(f, at, r, Head(r));
    var total := TotalAt(f, at);
    if total >= HEADER_SIZE {
      var cut := f[at..at + total];
      Within(f, cut, at, 4, 27);
      SizesBack(cut, 0, r, Head(r));
    }
  }

  // ---------------------------------------------------------------------------------------
  // Batch headers
  // ---------------------------------------------------------------------------------------

  datatype BatchInfo = BatchInfo(count: uint32, span: uint64)

  function BatchValue(b: BatchInfo): (v: seq<byte>)
    ensures |v| == BATCH_VALUE_SIZE
  {
    [BATCH_VERSION] + LE.Put32(b.count) + LE.Put64(b.span)
  }

  function DecodeBatch(v: seq<byte>): Option<BatchInfo> {
    if |v| != BATCH_VALUE_SIZE || v[0] != BATCH_VERSION then None
    else
      var b := BatchInfo(LE.Get32(v, 1), LE.Get64(v, 5));
      if b.count == 0 || b.span == 0 then None else Some(b)
  }

  lemma DecodeBatchBack(b: BatchInfo)
    ensures DecodeBatch(BatchValue(b)) == if b.count == 0 || b.span == 0 then None else Some(b)
  {
    var v := BatchValue(b);
    assert v[1..5] == LE.Put32(b.count) && v[5..13] == LE.Put64(b.span);
    LE.GetPut32(b.count, v, 1);
    LE.GetPut64(b.span, v, 5);
  }

  /** Which bytes of the value hold what. */
  lemma BatchLayout(b: BatchInfo, v: seq<byte>)
    requires v == BatchValue(b)
    ensures |v| == 13 && v[0] == 1 && LE.Get32(v, 1) == b.count && LE.Get64(v, 5) == b.span
  {
    assert v[1..5] == LE.Put32(b.count) && v[5..13] == LE.Put64(b.span);
    LE.GetPut32(b.count, v, 1);
    LE.GetPut64(b.span, v, 5);
  }
}
