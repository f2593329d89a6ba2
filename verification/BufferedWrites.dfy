/**
  An immediate write while records wait in the buffer (src/fileops/data_file.cpp 142-204), as after a flush that
  failed: the record goes behind the place of the buffer, and the next flush, which counts back from the write
  position, puts the buffer over the end of that record.
 */
module BufferedWrites {
  import opened Bytes
  import opened RecordFormat
  import opened PositionedWrites

  /** The file after a record e was written behind a buffer b that waits. */
  function WrittenBehind(d: seq<byte>, b: seq<byte>, e: seq<byte>): seq<byte> {
    Pwritten(d, |d| + |b|, e)
  }

  /** And after the buffer was then written. */
  function ThenFlushed(d: seq<byte>, b: seq<byte>, e: seq<byte>): seq<byte>
    requires e != []
  {
    BehindTheEnd(d, |b|, e);
    Pwritten(WrittenBehind(d, b, e), |d| + |b| + |e| - |b|, b)
  }

  /** The two end in the same bytes, as far as the shorter goes. */
  predicate SameEnd(b: seq<byte>, e: seq<byte>) {
    if |b| <= |e| then e[|e| - |b|..] == b else b[|b| - |e|..] == e
  }

  lemma CutOff(front: seq<byte>, e: seq<byte>, n: nat, m: nat)
    requires n <= |e| && m == |front| + n
    ensures (front + e)[..m] == front + e[..n]
  {
  }

  lemma CutInZeros(d: seq<byte>, m: nat, e: seq<byte>, n: nat)
    requires n <= m
    ensures (d + Zeros(m) + e)[..|d| + n] == d + Zeros(n)
  {
  }

  lemma Counted(d: seq<byte>, b: seq<byte>, e: seq<byte>)
    requires e != []
    ensures ThenFlushed(d, b, e) == Pwritten(d + Zeros(|b|) + e, |d| + |e|, b)
  {
    BehindTheEnd(d, |b|, e);
  }

  lemma OverIt(f: seq<byte>, b: seq<byte>, n: nat)
    requires |f| == n + |b|
    ensures Pwritten(f, n, b) == f[..n] + b
  {
    OverTheEnd(f, b);
  }

  /** The buffer takes the last bytes of the file, and its own place stays empty unless it is longer than the record. */
  lemma FlushedBytes(d: seq<byte>, b: seq<byte>, e: seq<byte>)
    requires e != [] && b != []
    ensures |ThenFlushed(d, b, e)| == |d| + |b| + |e|
    ensures |b| <= |e| ==> ThenFlushed(d, b, e) == d + Zeros(|b|) + e[..|e| - |b|] + b
    ensures |e| <= |b| ==> ThenFlushed(d, b, e) == d + Zeros(|e|) + b
  {
    var n := |d| + |e|;
    Counted(d, b, e);
    OverIt(d + Zeros(|b|) + e, b, n);
    if |b| <= |e| {
      CutOff(d + Zeros(|b|), e, |e| - |b|, n);
    }
    if |e| <= |b| {
      CutInZeros(d, |b|, e, |e|);
    }
  }

  /** The record, whose place the caller was given, is still there exactly if it ends in the buffer's bytes, or the
      buffer in it. */
  lemma RecordSurvivesExactly(d: seq<byte>, b: seq<byte>, e: seq<byte>)
    requires e != [] && b != []
    ensures |ThenFlushed(d, b, e)| == |d| + |b| + |e|
    ensures ThenFlushed(d, b, e)[|d| + |b|..] == e <==> SameEnd(b, e)
  {
    FlushedBytes(d, b, e);
    var f := ThenFlushed(d, b, e);
    if |b| <= |e| {
      assert f[|d| + |b|..] == e[..|e| - |b|] + b;
      assert e == e[..|e| - |b|] + e[|e| - |b|..];
      assert (e[..|e| - |b|] + b)[|e| - |b|..] == b;
    } else {
      assert f[|d| + |b|..] == b[|b| - |e|..];
    }
  }

  /** Two records of one size: the last one of a buffer whose flush has failed, and another that is then written and
      acknowledged. After the next flush the first one stands in the place of the other. */
  lemma OtherRecordIsRead(d: seq<byte>, front: seq<byte>, waiting: Rec, written: Rec, sum: Checksum)
    requires Writable(waiting) && Writable(written) && Size(waiting) == Size(written)
    ensures var b, e := front + RecBytes(waiting, sum), RecBytes(written, sum);
            var f := ThenFlushed(d, b, e);
            && |d| + |b| <= |f| && f[|d| + |b|..] == RecBytes(waiting, sum)
            && DecodeRecord(f[|d| + |b|..], sum) == Ok(waiting)
  {
    var w, e := RecBytes(waiting, sum), RecBytes(written, sum);
    var b := front + w;
    FlushedBytes(d, b, e);
    var f := ThenFlushed(d, b, e);
    assert f == (d + Zeros(|e|) + front) + w;
    assert |d + Zeros(|e|) + front| == |d| + |b|;
    DecodeUndoesEncode(waiting, w, sum);
  }
}
