/**
  Variable-length integers (include/bitcask/vbyte.hpp): groups of seven bits, lowest first, the top bit
  set on the last byte.
 */
module VByte {
  import opened Bytes

  /** The encoding of v. */
  function Encoded(v: nat): (bytes: seq<byte>)
    ensures |bytes| >= 1
    decreases v
  {
    if v >= 128 then [v % 128] + Encoded(v / 128) else [v + 128]
  }

  /** 2 to the power 7 * k: the weight of byte k. */
  function Weight(k: nat): (w: nat)
    ensures w > 0
  {
    if k == 0 then 1 else 128 * Weight(k - 1)
  }

  /** Reading from byte k of a number on: acc is what the bytes before it came to. A shift count of 64 or
      more is refused, and what is shifted out of the 64-bit result is lost. */
  function ReadFrom(buf: seq<byte>, pos: nat, k: nat, acc: uint64): (r: Option<(uint64, nat)>)
    requires pos <= |buf|
    ensures r.Some? ==> pos < r.value.1 <= |buf|
    decreases |buf| - pos
  {
    if pos == |buf| then None
    else
      var acc' := (acc as int + buf[pos] as int % 128 * Weight(k)) % 0x1_0000_0000_0000_0000;
      if buf[pos] >= 128 then Some((acc', pos + 1))
      else if 7 * (k + 1) >= 64 then None
      else ReadFrom(buf, pos + 1, k + 1, acc')
  }

  /** The number at pos and the position behind it; none when the bytes end first or the number does not
      end in time. */
  function Read(buf: seq<byte>, pos: nat): (r: Option<(uint64, nat)>)
    requires pos <= |buf|
    ensures r.Some? ==> pos < r.value.1 <= |buf|
  {
    ReadFrom(buf, pos, 0, 0)
  }

  /** vbyte_read_checked */
  method ReadChecked(buf: seq<byte>, start: nat) returns (r: Option<(uint64, nat)>)
    requires start <= |buf|
    ensures r == Read(buf, start)
  {
    var result: uint64 := 0;
    var shift, pos := 0, start;
    ghost var k := 0;
    while true
      invariant start <= pos <= |buf| && shift == 7 * k
      invariant ReadFrom(buf, pos, k, result) == Read(buf, start)
      decreases |buf| - pos
    {
      if pos >= |buf| {
        return None;
      }
      var b := buf[pos];
      pos := pos + 1;
      result := (result as int + b as int % 128 * ShiftedOne(shift, k)) % 0x1_0000_0000_0000_0000;
      if b >= 128 {
        return Some((result, pos));
      }
      shift := shift + 7;
      k := k + 1;
      if shift >= 64 {
        return None;
      }
    }
  }

  /** 1 << shift */
  function ShiftedOne(shift: nat, ghost k: nat): (w: nat)
    requires shift == 7 * k
    ensures w == Weight(k)
    decreases shift
  {
    if shift == 0 then 1 else 128 * ShiftedOne(shift - 7, k - 1)
  }

  // ---------------------------------------------------------------------------------------
  // Round trip
  // ---------------------------------------------------------------------------------------

  /** The number that groups of seven bits, lowest first, make up. */
  function Value(bytes: seq<byte>): nat {
    if bytes == [] then 0 else bytes[0] as int % 128 + 128 * Value(bytes[1..])
  }

  predicate Grouped(bytes: seq<byte>) {
    bytes != [] && bytes[|bytes| - 1] >= 128 && forall i :: 0 <= i < |bytes| - 1 ==> bytes[i] < 128
  }

  lemma OneGroupMore(r: byte, rest: seq<byte>)
    requires r < 128 && Grouped(rest)
    ensures Grouped([r] + rest) && Value([r] + rest) == r as int + 128 * Value(rest)
  {
    var all := [r] + rest;
    assert all[1..] == rest && r as int % 128 == r as int;
  }

  /** The encoding is made of such groups, and only the last has the top bit set. */
  lemma {:induction false} GroupsOf(v: nat)
    ensures Grouped(Encoded(v)) && Value(Encoded(v)) == v
    decreases v
  {
    if v >= 128 {
      GroupsOf(v / 128);
      EncodedSplits(v);
      OneGroupMore(v % 128, Encoded(v / 128));
    } else {
      assert [v + 128 as byte][1..] == [];
    }
  }

  lemma NinthWeight()
    ensures Weight(9) == 0x8000_0000_0000_0000
  {
    assert Weight(3) == 0x20_0000;
    assert Weight(6) == 0x400_0000_0000;
  }

  lemma LastGroup(v: nat, k: nat)
    requires v >= 128 && v * Weight(k) < 0x1_0000_0000_0000_0000 && k <= 9
    ensures k <= 8
  {
    NinthWeight();
    assert v * Weight(9) >= 128 * Weight(9);
  }

  lemma SplitGroup(v: nat, w: nat)
    ensures v % 128 * w + v / 128 * (128 * w) == v * w
  {
    var q, r := v / 128, v % 128;
    assert v == 128 * q + r;
    assert (128 * q + r) * w == q * (128 * w) + r * w;
  }

  lemma EncodedSplits(v: nat)
    requires v >= 128
    ensures Encoded(v) == [v % 128] + Encoded(v / 128)
  {
  }

  lemma FirstByte(buf: seq<byte>, pos: nat, b: byte, rest: seq<byte>)
    requires pos <= |buf| && buf[pos..] == [b] + rest
    ensures pos < |buf| && buf[pos] == b && buf[pos + 1..] == rest
  {
    assert buf[pos] == buf[pos..][0];
    assert buf[pos + 1..] == buf[pos..][1..];
  }

  /** A byte without the top bit: its seven bits count, and reading goes on. */
  lemma ReadOn(buf: seq<byte>, pos: nat, k: nat, acc: uint64, b: byte, next: nat)
    requires pos < |buf| && buf[pos] == b < 128 && k <= 8
    requires next == acc + b as int * Weight(k) < 0x1_0000_0000_0000_0000
    ensures ReadFrom(buf, pos, k, acc) == ReadFrom(buf, pos + 1, k + 1, next)
  {
    assert b as int % 128 == b as int;
  }

  lemma ReadLast(buf: seq<byte>, pos: nat, k: nat, acc: uint64, v: nat, total: nat)
    requires pos < |buf| && v < 128 && buf[pos] as int == v + 128
    requires total == acc + v * Weight(k) < 0x1_0000_0000_0000_0000
    ensures ReadFrom(buf, pos, k, acc) == Some((total, pos + 1))
  {
    assert buf[pos] as int % 128 == v;
  }

  /** What has been read and what is left make the same total. */
  lemma NextGroup(v: nat, q: nat, r: nat, k: nat, w: nat, acc: nat, total: nat) returns (next: nat)
    requires q == v / 128 && r == v % 128 && w == Weight(k) && total == acc + v * w
    ensures next == acc + r * w <= total && total == next + q * Weight(k + 1)
  {
    SplitGroup(v, w);
    next := acc + r * w;
  }

  lemma {:induction false} ReadEncoded(buf: seq<byte>, pos: nat, v: nat, rest: seq<byte>, k: nat, acc: uint64,
                                       total: nat)
    requires pos <= |buf| && buf[pos..] == Encoded(v) + rest && k <= 9
    requires total == acc + v * Weight(k) < 0x1_0000_0000_0000_0000
    ensures ReadFrom(buf, pos, k, acc) == Some((total, pos + |Encoded(v)|))
    decreases v
  {
    if v >= 128 {
      var w, q, r := Weight(k), v / 128, v % 128;
      LastGroup(v, k);
      var next := NextGroup(v, q, r, k, w, acc, total);
      EncodedSplits(v);
      assert [r] + Encoded(q) + rest == [r] + (Encoded(q) + rest);
      FirstByte(buf, pos, r, Encoded(q) + rest);
      ReadOn(buf, pos, k, acc, r, next);
      ReadEncoded(buf, pos + 1, q, rest, k + 1, next, total);
    } else {
      FirstByte(buf, pos, v + 128, rest);
      ReadLast(buf, pos, k, acc, v, total);
    }
  }

  /** Every 64-bit number is read back from its encoding, wherever it stands. */
  lemma RoundTrip(buf: seq<byte>, pos: nat, v: uint64, rest: seq<byte>)
    requires pos <= |buf| && buf[pos..] == Encoded(v) + rest
    ensures Read(buf, pos) == Some((v, pos + |Encoded(v)|))
  {
    ReadEncoded(buf, pos, v, rest, 0, 0, v);
  }

  lemma {:induction false} AtMost(v: nat, k: nat)
    requires k > 0 && v < Weight(k)
    ensures |Encoded(v)| <= k
    decreases k
  {
    if v >= 128 {
      assert v / 128 < Weight(k - 1);
      AtMost(v / 128, k - 1);
    }
  }

  lemma {:induction false} MoreThan(v: nat, k: nat)
    requires v >= Weight(k)
    ensures |Encoded(v)| > k
    decreases k
  {
    if k > 0 {
      assert v / 128 >= Weight(k - 1);
      MoreThan(v / 128, k - 1);
    }
  }

  /** Nine bytes, the bound the encoder reserves by, are enough exactly for the numbers below 2^63. */
  lemma NineBytes(v: nat)
    ensures |Encoded(v)| <= 9 <==> v < 0x8000_0000_0000_0000
  {
    NinthWeight();
    if v < Weight(9) {
      AtMost(v, 9);
    } else {
      MoreThan(v, 9);
    }
  }
}
