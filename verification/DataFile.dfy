/**
  The data file as an object (src/fileops/data_file.cpp): immediate and buffered appends, the scan as the
  loop that it is, truncation, and the ord patch of an encoded record (src/fileops/codec.cpp).
 */
module DataFiles {
  import opened Bytes
  import LE = LittleEndian
  import opened RecordFormat
  import opened PositionedWrites
  import opened FoldRecovery

  const FLUSH_BYTES: nat := 0x10_0000

  /** The record as patch_data_record_ord leaves it: another ord and the checksum that goes with it. */
  method PatchOrd(record: seq<byte>, ord: uint64, sum: Checksum, ghost r: Rec) returns (patched: seq<byte>)
    requires Writable(r) && record == RecBytes(r, sum)
    ensures patched == RecBytes(r.(ord := ord), sum)
    ensures DecodeRecord(patched, sum) == Ok(r.(ord := ord))
  {
    PatchedCovered(r, ord, Covered(r));
    BodyParts(r, record, sum);
    var covered := record[4..];
    covered := covered[..9] + LE.Put64(ord) + covered[17..];
    patched := LE.Put32(sum(covered)) + covered;
    DecodeUndoesEncode(r.(ord := ord), patched, sum);
  }

  lemma PatchedCovered(r: Rec, ord: uint64, c: seq<byte>)
    requires Writable(r) && c == Covered(r)
    ensures c[..9] + LE.Put64(ord) + c[17..] == Covered(r.(ord := ord))
  {
    var front := [r.kind] + LE.Put64(r.tstamp);
    var sizes := LE.Put16(|r.key|) + LE.Put32(|r.value|);
    var rest := sizes + (r.key + r.value);
    assert c == front + LE.Put64(r.ord) + rest;
    assert c[..9] == front && c[17..] == rest;
    assert Covered(r.(ord := ord)) == front + LE.Put64(ord) + rest;
  }

  class DataFile {
    const sum: Checksum
    var disk: seq<byte>
    var currentOffset: nat
    var batchBuf: seq<byte>

    /** The write position counts what is still in the buffer, and nothing else lies beyond it. */
    ghost predicate Valid()
      reads this
    {
      currentOffset == |disk| + |batchBuf|
    }

    /** Where the buffer goes. This much holds after anything that may happen. */
    ghost predicate Placed()
      reads this
    {
      |batchBuf| <= currentOffset
    }

    /** The file as it will be once the buffer is written. */
    ghost function Logical(): seq<byte>
      requires Placed()
      reads this
    {
      Pwritten(disk, currentOffset - |batchBuf|, batchBuf)
    }

    constructor (f: seq<byte>, s: Checksum)
      ensures Valid() && disk == f && batchBuf == [] && sum == s
    {
      sum, disk, currentOffset, batchBuf := s, f, |f|, [];
    }

    /** encode_data_record */
    method Encode(r: Rec) returns (e: seq<byte>)
      requires Writable(r)
      ensures e == RecBytes(r, sum)
    {
      var covered := [r.kind] + LE.Put64(r.tstamp) + LE.Put64(r.ord) + LE.Put16(|r.key|) + LE.Put32(|r.value|);
      covered := covered + (r.key + r.value);
      e := LE.Put32(sum(covered)) + covered;
    }

    /** pwrite: the bytes, or, when it fails, the first `landed` of them, replace what stands there. */
    method Pwrite(off: nat, e: seq<byte>, landed: nat) returns (ok: bool)
      modifies this`disk
      ensures ok == (landed >= |e|)
      ensures disk == Pwritten(old(disk), off, UpTo(e, landed))
    {
      disk := Pwritten(disk, off, UpTo(e, landed));
      return landed >= |e|;
    }

    /** write: the record at the write position, and where it begins. None when it is too large for its size fields,
        or when only `landed` bytes of it could be written; the write position stays then. Behind a buffer that was
        not written it leaves a hole, and the buffer no longer knows its place. */
    method Write(r: Rec, landed: nat) returns (at: Option<nat>)
      modifies this`disk, this`currentOffset
      ensures at == if Writable(r) && landed >= Size(r) then Some(old(currentOffset)) else None
      ensures currentOffset == if at.Some? then old(currentOffset) + Size(r) else old(currentOffset)
      ensures disk == if Writable(r) then Pwritten(old(disk), old(currentOffset), UpTo(RecBytes(r, sum), landed))
                      else old(disk)
      ensures old(Valid()) && at.Some? ==> disk == old(disk) + Zeros(|batchBuf|) + RecBytes(r, sum)
      ensures old(Valid()) && at.Some? ==> (Valid() <==> batchBuf == [])
    {
      if |r.key| > 0xFFFF || |r.value| > 0xFFFF_FFFF {
        return None;
      }
      var e := Encode(r);
      var off := currentOffset;
      BehindTheEnd(disk, |batchBuf|, e);
      var ok := Pwrite(off, e, landed);
      if !ok {
        return None;
      }
      currentOffset := currentOffset + |e|;
      return Some(off);
    }

    /** flush_batch: the buffer is written where the write position says that it belongs. If only `landed` bytes of it
        land, it is kept and can be written again. */
    method FlushBatch(landed: nat) returns (ok: bool)
      requires Placed()
      modifies this`disk, this`batchBuf
      ensures ok == (landed >= |old(batchBuf)|) && batchBuf == if ok then [] else old(batchBuf)
      ensures disk == Pwritten(old(disk), currentOffset - |old(batchBuf)|, UpTo(old(batchBuf), landed))
      ensures Logical() == old(Logical())
      ensures old(Valid()) && ok ==> Valid() && disk == old(disk) + old(batchBuf)
    {
      if |batchBuf| == 0 {
        return true;
      }
      var at := currentOffset - |batchBuf|;
      AtTheEnd(disk, batchBuf);
      Again(disk, at, batchBuf, landed);
      ok := Pwrite(at, batchBuf, landed);
      if ok {
        batchBuf := [];
      }
    }

    /** write_buffered: the same record at the same place as write, only written later. When the buffer is full it is
        written; if only `landed` bytes of it land, the record stays in the buffer although the call fails. */
    method WriteBuffered(r: Rec, landed: nat) returns (at: Option<nat>)
      requires Placed()
      modifies this
      ensures Placed()
      ensures !Writable(r) ==> at == None && unchanged(this)
      ensures Writable(r) ==>
                var b := old(batchBuf) + RecBytes(r, sum);
                var full := |b| >= FLUSH_BYTES;
                var place := old(currentOffset) - |old(batchBuf)|;
                && at == (if full && landed < |b| then None else Some(old(currentOffset)))
                && currentOffset == old(currentOffset) + Size(r)
                && batchBuf == (if full && landed >= |b| then [] else b)
                && disk == (if full then Pwritten(old(disk), place, UpTo(b, landed)) else old(disk))
                && Logical() == Pwritten(old(disk), place, b)
      ensures old(Valid()) && Writable(r) ==> Logical() == old(Logical()) + RecBytes(r, sum)
      ensures old(Valid()) && at.Some? ==> Valid()
    {
      if |r.key| > 0xFFFF || |r.value| > 0xFFFF_FFFF {
        return None;
      }
      var off := currentOffset;
      var e := Encode(r);
      Enqueue(e);
      if |batchBuf| >= FLUSH_BYTES {
        var ok := FlushBatch(landed);
        if !ok {
          return None;
        }
      }
      return Some(off);
    }

    /** The encoding at the end of the buffer. */
    method Enqueue(e: seq<byte>)
      requires Placed()
      modifies this`batchBuf, this`currentOffset
      ensures Placed() && batchBuf == old(batchBuf) + e && currentOffset == old(currentOffset) + |e|
      ensures currentOffset - |batchBuf| == old(currentOffset) - |old(batchBuf)|
      ensures old(Valid()) ==> Valid() && Logical() == old(Logical()) + e
    {
      TwoPieces(disk, batchBuf, e);
      batchBuf := batchBuf + e;
      currentOffset := currentOffset + |e|;
    }

    method TruncateTo(size: nat)
      requires Valid() && batchBuf == [] && size <= |disk|
      modifies this`disk, this`currentOffset
      ensures Valid() && disk == old(disk)[..size]
    {
      disk := disk[..size];
      currentOffset := |disk|;
    }

    /** The part of the loop that reads: header, sizes, whole record, checksum. */
    method ReadAt(offset: nat) returns (look: Look)
      ensures look == LookAt(disk, offset, sum)
    {
      if offset + HEADER_SIZE > |disk| {
        return End;
      }
      var keySz, valueSz := LE.Get16(disk, offset + 21), LE.Get32(disk, offset + 23);
      var total := (HEADER_SIZE + keySz + valueSz as int) % 0x1_0000_0000;
      if offset + total > |disk| {
        return End;
      }
      match DecodeRecord(disk[offset..offset + total], sum)
      case BufferTooShort => return Short;
      case BadCrc => return Damaged(total);
      case Ok(rec) => return Found(rec, total);
    }

    /** fold: what fn is called with, and the valid end. */
    method Fold(start: nat, tolerate: bool) returns (o: Outcome)
      ensures o == FoldRecovery.Fold(disk, start, tolerate, sum)
    {
      var offset: nat, batchUntil: nat, lve: nat, crcErrors: nat := start, 0, start, 0;
      var seen: seq<Seen> := [];
      ViewIsSound(disk, sum);
      ghost var view, total := ViewOf(disk, sum), |disk|;
      while true
        invariant FoldFrom(view, total, Scan(offset, batchUntil, lve, crcErrors, seen), tolerate)
               == FoldRecovery.Fold(disk, start, tolerate, sum)
        decreases total - offset
      {
        ghost var s := Scan(offset, batchUntil, lve, crcErrors, seen);
        NextMovesOn(view, total, s, tolerate);
        var look := ReadAt(offset);
        assert view(offset) == look;
        var turn := TakeTurn(s, look, tolerate, offset, batchUntil, lve, crcErrors, seen);
        match turn
        case Halt(outcome) =>
          FoldHalts(view, total, s, tolerate, outcome);
          return outcome;
        case Go(next) =>
          FoldGoes(view, total, s, tolerate, next);
          offset, batchUntil, lve, crcErrors, seen := next.offset, next.until, next.lve, next.crcErrors, next.seen;
      }
    }

    /** One turn of the loop, statement by statement. */
    method TakeTurn(ghost s: Scan, look: Look, tolerate: bool, offset: nat, batchUntil: nat, lve: nat, crcErrors: nat,
                    seen: seq<Seen>)
      returns (turn: Turn)
      requires s == Scan(offset, batchUntil, lve, crcErrors, seen) && look == ViewOf(disk, sum)(offset)
      ensures turn == Next(ViewOf(disk, sum), |disk|, s, tolerate)
    {
      var until, errors, calls := batchUntil, crcErrors, seen;
      match look
      case End => return Halt(Done(lve, seen));
      case Short => return Halt(FailedShort);
      case Damaged(size) =>
        if !tolerate {
          return Halt(FailedCrc);
        }
        errors := errors + 1;
        if errors > CRC_SKIP_LIMIT {
          return Halt(FailedCrc);
        }
        var at := offset + size;
        if until != 0 && at >= until {
          if at > until {
            return Halt(Done(lve, seen));
          }
          return Go(Scan(at, 0, at, errors, seen));
        }
        return Go(Scan(at, until, lve, errors, seen));
      case Found(rec, size) =>
        if rec.kind == BATCH_HEADER {
          if until != 0 {
            return Halt(Done(lve, seen));
          }
          var b := DecodeBatch(rec.value);
          if b == None {
            return Halt(Done(lve, seen));
          }
          var end := (offset + size + b.value.span as int) % 0x1_0000_0000_0000_0000;
          if end > |disk| {
            return Halt(Done(lve, seen));
          }
          until := end;
        }
        calls := calls + [Seen(rec, offset, size)];
        var at := offset + size;
        if until != 0 {
          if at >= until {
            if at > until {
              return Halt(Done(lve, calls));
            }
            return Go(Scan(at, 0, at, errors, calls));
          }
          return Go(Scan(at, until, lve, errors, calls));
        }
        return Go(Scan(at, 0, at, errors, calls));
    }

    /** Opening for writing: what lies behind the valid end is cut off. */
    method Recover() returns (o: Outcome)
      requires Valid() && batchBuf == []
      modifies this`disk, this`currentOffset
      ensures Valid() && o == FoldRecovery.Fold(old(disk), 0, true, sum)
      ensures disk == Truncated(old(disk), sum)
    {
      o := Fold(0, true);
      if o.Done? && o.lve < |disk| {
        TruncateTo(o.lve);
      }
    }
  }
}
