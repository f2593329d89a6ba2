/**
  What positioned writes do to a file: bytes are replaced where they land, a gap becomes zeros, and a write that
  fails may have put down any beginning of its bytes (src/fileops/data_file.cpp 124-204).
 */
module PositionedWrites {
  import opened Bytes

  function Zeros(n: nat): (s: seq<byte>)
    ensures |s| == n
  {
    seq(n, _ => 0)
  }

  /** The first n bytes, or all. */
  function UpTo(e: seq<byte>, n: nat): seq<byte> {
    if n < |e| then e[..n] else e
  }

  /** What stands behind the first n bytes. */
  function Past(d: seq<byte>, n: nat): seq<byte> {
    if n < |d| then d[n..] else []
  }

  /** The first off bytes, filled up with zeros. */
  function Front(d: seq<byte>, off: nat): (f: seq<byte>)
    ensures |f| == off
  {
    UpTo(d, off) + Zeros(off - |UpTo(d, off)|)
  }

  /** The file after e was written at an offset. Nothing happens when there is nothing to write. */
  function Pwritten(d: seq<byte>, off: nat, e: seq<byte>): seq<byte> {
    if e == [] then d else Front(d, off) + e + Past(d, off + |e|)
  }

  lemma FrontIs(front: seq<byte>, rest: seq<byte>)
    ensures Front(front + rest, |front|) == front
  {
    assert UpTo(front + rest, |front|) == front;
  }

  lemma PastIs(front: seq<byte>, rest: seq<byte>, n: nat)
    ensures Past(front + rest, |front| + n) == Past(rest, n)
  {
  }

  lemma PastPast(d: seq<byte>, m: nat, n: nat)
    ensures Past(Past(d, m), n) == Past(d, m + n)
  {
  }

  lemma AtTheEnd(d: seq<byte>, e: seq<byte>)
    ensures Pwritten(d, |d|, e) == d + e
  {
    FrontIs(d, []);
    assert d + [] == d && d + e + [] == d + e;
  }

  lemma BehindTheEnd(d: seq<byte>, n: nat, e: seq<byte>)
    requires e != []
    ensures Pwritten(d, |d| + n, e) == d + Zeros(n) + e
  {
    assert UpTo(d, |d| + n) == d;
    assert d + Zeros(n) + e + [] == d + Zeros(n) + e;
  }

  /** Over the end of a file whose last bytes are there already: they are replaced. */
  lemma OverTheEnd(d: seq<byte>, e: seq<byte>)
    requires |e| <= |d|
    ensures Pwritten(d, |d| - |e|, e) == d[..|d| - |e|] + e
  {
    var n := |d| - |e|;
    FrontIs(d[..n], d[n..]);
    assert d[..n] + d[n..] == d;
    assert d[..n] + e + [] == d[..n] + e;
  }

  /** Over what was written before, from the same place. */
  lemma Over(front: seq<byte>, part: seq<byte>, rest: seq<byte>, e: seq<byte>)
    requires e != [] && |part| <= |e|
    ensures Pwritten(front + (part + rest), |front|, e) == front + e + Past(rest, |e| - |part|)
  {
    FrontIs(front, part + rest);
    PastIs(front, part + rest, |e|);
    PastIs(part, rest, |e| - |part|);
  }

  lemma OverRest(front: seq<byte>, rest: seq<byte>, e: seq<byte>)
    requires e != []
    ensures Pwritten(front + rest, |front|, e) == front + e + Past(rest, |e|)
  {
    FrontIs(front, rest);
    PastIs(front, rest, |e|);
  }

  /** Two pieces at the end, in one write or one after the other. */
  lemma TwoPieces(d: seq<byte>, b: seq<byte>, e: seq<byte>)
    ensures Pwritten(d, |d|, b + e) == Pwritten(d, |d|, b) + e
  {
    AtTheEnd(d, b);
    AtTheEnd(d, b + e);
    assert d + (b + e) == (d + b) + e;
  }

  /** Writing the same bytes again puts right what a failed write left. */
  lemma Again(d: seq<byte>, off: nat, e: seq<byte>, n: nat)
    ensures Pwritten(Pwritten(d, off, UpTo(e, n)), off, e) == Pwritten(d, off, e)
  {
    var part, front := UpTo(e, n), Front(d, off);
    if part != [] {
      var rest := Past(d, off + |part|);
      assert Pwritten(d, off, part) == front + (part + rest);
      Over(front, part, rest, e);
      PastPast(d, off + |part|, |e| - |part|);
    }
  }

  // ---------------------------------------------------------------------------------------
  // Writes one after the other
  // ---------------------------------------------------------------------------------------

  ghost predicate NoneEmpty(pieces: seq<seq<byte>>) {
    forall i :: 0 <= i < |pieces| ==> pieces[i] != []
  }

  /** The bytes d and then the pieces. */
  ghost function Grown(d: seq<byte>, pieces: seq<seq<byte>>): seq<byte>
    decreases |pieces|
  {
    if pieces == [] then d else Grown(d, pieces[..|pieces| - 1]) + pieces[|pieces| - 1]
  }

  lemma GrownSnoc(d: seq<byte>, pieces: seq<seq<byte>>, x: seq<byte>)
    ensures Grown(d, pieces + [x]) == Grown(d, pieces) + x
  {
    assert (pieces + [x])[..|pieces|] == pieces;
  }

  /** A file into which the pieces are written one after the other, behind the bytes d. */
  ghost function WriteAll(f: seq<byte>, d: seq<byte>, pieces: seq<seq<byte>>): seq<byte>
    decreases |pieces|
  {
    if pieces == [] then f
    else
      var before := pieces[..|pieces| - 1];
      Pwritten(WriteAll(f, d, before), |Grown(d, before)|, pieces[|pieces| - 1])
  }

  lemma OneMoreOver(front: seq<byte>, rest: seq<byte>, n: nat, x: seq<byte>)
    requires x != []
    ensures Pwritten(front + Past(rest, n), |front|, x) == (front + x) + Past(rest, n + |x|)
  {
    OverRest(front, Past(rest, n), x);
    PastPast(rest, n, |x|);
  }

  /** What stood behind d shows only where it reaches beyond all pieces. */
  lemma {:induction false} WriteAllIs(d: seq<byte>, rest: seq<byte>, pieces: seq<seq<byte>>) returns (n: nat)
    requires NoneEmpty(pieces)
    ensures |Grown(d, pieces)| == |d| + n && WriteAll(d + rest, d, pieces) == Grown(d, pieces) + Past(rest, n)
    decreases |pieces|
  {
    if pieces == [] {
      n := 0;
    } else {
      var before, x := pieces[..|pieces| - 1], pieces[|pieces| - 1];
      var m := WriteAllIs(d, rest, before);
      n := OneMoreWritten(d, Grown(d, before), rest, m, x);
    }
  }

  lemma OneMoreWritten(d: seq<byte>, front: seq<byte>, rest: seq<byte>, m: nat, x: seq<byte>) returns (n: nat)
    requires x != [] && |front| == |d| + m
    ensures |front + x| == |d| + n && Pwritten(front + Past(rest, m), |front|, x) == (front + x) + Past(rest, n)
  {
    OneMoreOver(front, rest, m, x);
    n := m + |x|;
  }
}
