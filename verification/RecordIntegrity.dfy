/**
  Data-file records with the checksum the store really uses: CRC-32 over everything behind the checksum field
  (src/fileops/codec.cpp 38-121). What damage to a record cannot go unnoticed.
 */
module RecordIntegrity {
  import opened Bytes
  import LE = LittleEndian
  import opened RecordFormat
  import CrcUpdate
  import CrcErrorDetection
  import opened CrcValues

  /** The octet with this value. */
  function Octet(x: byte): (o: bv8)
    ensures o as int == x
  {
    if x == 0 then 0 else Successor(Octet(x - 1))
  }

  function Successor(o: bv8): (s: bv8)
    requires o as int < 255
    ensures s as int == o as int + 1
  {
    o + 1
  }

  function Octets(s: seq<byte>): (o: seq<bv8>)
    ensures |o| == |s|
  {
    seq(|s|, i requires 0 <= i < |s| => Octet(s[i]))
  }

  /** The bytes of a register, lowest first. */
  function RegisterBytes(x: bv32): (s: seq<byte>)
    ensures |s| == 4
  {
    [LowOctet(x) as int, LowOctet(x >> 8) as int, LowOctet(x >> 16) as int, LowOctet(x >> 24) as int]
  }

  /** The number that a register stands for. */
  function Number(x: bv32): uint32 {
    LE.Widths();
    LE.GetBelow(RegisterBytes(x));
    LE.Get(RegisterBytes(x))
  }

  lemma NumberBytes(x: bv32)
    ensures LE.Put32(Number(x)) == RegisterBytes(x)
  {
    LE.PutGet(RegisterBytes(x));
  }

  function StoreSum(s: seq<byte>): uint32 {
    Number(CrcUpdate.Crc(0, Octets(s)))
  }

  lemma OctetsInjective(s: seq<byte>, t: seq<byte>)
    requires Octets(s) == Octets(t)
    ensures s == t
  {
    assert |s| == |Octets(s)| == |Octets(t)| == |t|;
    forall i | 0 <= i < |s| ensures s[i] == t[i] {
      assert Octets(s)[i] == Octets(t)[i];
      assert Octet(s[i]) as int == s[i] && Octet(t[i]) as int == t[i];
    }
  }

  lemma OctetsSlice(s: seq<byte>, i: nat, j: nat)
    requires i <= j <= |s|
    ensures Octets(s)[i..j] == Octets(s[i..j])
  {
  }

  /** Strings that differ only within four neighbouring bytes never have the same checksum. */
  lemma SumTells(s: seq<byte>, t: seq<byte>, at: nat, end: nat)
    requires |s| == |t| && at <= end <= |s| && end <= at + 4 && s[..at] == t[..at] && s[end..] == t[end..]
    ensures StoreSum(s) == StoreSum(t) <==> s == t
  {
    var a, b := Octets(s), Octets(t);
    OctetsSlice(s, 0, at);
    OctetsSlice(t, 0, at);
    OctetsSlice(s, end, |s|);
    OctetsSlice(t, end, |t|);
    assert a[..at] == b[..at] && a[end..] == b[end..];
    var p, q := CrcUpdate.Crc(0, a), CrcUpdate.Crc(0, b);
    CrcErrorDetection.FourByteWindow(0, a, b, at, end, p, q);
    SameNumber(p, q);
    if a == b {
      OctetsInjective(s, t);
    }
  }

  lemma SameByte(p: bv8, q: bv8)
    requires p as int == q as int
    ensures p == q
  {
    assert (p as int) as bv8 == p && (q as int) as bv8 == q;
  }

  lemma SameOctets(p: bv32, q: bv32)
    requires LowOctet(p) == LowOctet(q) && LowOctet(p >> 8) == LowOctet(q >> 8)
    requires LowOctet(p >> 16) == LowOctet(q >> 16) && LowOctet(p >> 24) == LowOctet(q >> 24)
    ensures p == q
  {
  }

  lemma SameRegisterByte(s: seq<byte>, t: seq<byte>, i: nat, a: bv8, b: bv8)
    requires s == t && i < |s| && s[i] == a as int && t[i] == b as int
    ensures a == b
  {
    SameByte(a, b);
  }

  lemma SameRegister(p: bv32, q: bv32)
    requires RegisterBytes(p) == RegisterBytes(q)
    ensures p == q
  {
    var s, t := RegisterBytes(p), RegisterBytes(q);
    SameRegisterByte(s, t, 0, LowOctet(p), LowOctet(q));
    SameRegisterByte(s, t, 1, LowOctet(p >> 8), LowOctet(q >> 8));
    SameRegisterByte(s, t, 2, LowOctet(p >> 16), LowOctet(q >> 16));
    SameRegisterByte(s, t, 3, LowOctet(p >> 24), LowOctet(q >> 24));
    SameOctets(p, q);
  }

  lemma SameNumber(p: bv32, q: bv32)
    ensures Number(p) == Number(q) <==> p == q
  {
    if Number(p) == Number(q) {
      NumberBytes(p);
      NumberBytes(q);
      SameRegister(p, q);
    }
  }

  lemma SameOctet(x: byte, o: bv8)
    requires x == o as int
    ensures Octet(x) == o
  {
    SameByte(Octet(x), o);
  }

  lemma StoredOctets(crc: bv32)
    ensures Octets(RegisterBytes(crc)) == Stored(crc)
  {
    var s := RegisterBytes(crc);
    SameOctet(s[0], LowOctet(crc));
    SameOctet(s[1], LowOctet(crc >> 8));
    SameOctet(s[2], LowOctet(crc >> 16));
    SameOctet(s[3], LowOctet(crc >> 24));
  }

  lemma OctetsJoined(a: seq<byte>, b: seq<byte>)
    ensures Octets(a + b) == Octets(a) + Octets(b)
  {
  }

  lemma ResidueNumber(last: bv32)
    requires last == 0x2144_DF1C
    ensures Number(last) == 0x2144_DF1C
  {
    var s := RegisterBytes(last);
    ResidueBytes(last, s);
    assert s[1..] == [0xDF, 0x44, 0x21] && s[1..][1..] == [0x44, 0x21] && s[1..][1..][1..] == [0x21];
    assert s[1..][1..][1..][1..] == [];
  }

  lemma ResidueBytes(last: bv32, s: seq<byte>)
    requires last == 0x2144_DF1C && s == RegisterBytes(last)
    ensures s == [0x1C, 0xDF, 0x44, 0x21]
  {
  }

  /** The checksum of bytes followed by their own checksum, as it is stored, is the same number for all bytes. */
  lemma SumOfSummed(s: seq<byte>)
    ensures StoreSum(s + LE.Put32(StoreSum(s))) == 0x2144_DF1C
  {
    var crc := CrcUpdate.Crc(0, Octets(s));
    NumberBytes(crc);
    StoredOctets(crc);
    OctetsJoined(s, RegisterBytes(crc));
    var all := Octets(s) + Stored(crc);
    var last := CrcUpdate.Crc(0, all);
    Residue(0, Octets(s), crc, all, last);
    ResidueNumber(last);
  }

  /** The record with at most four neighbouring bytes replaced, all of them in the checksum or all behind it. */
  ghost predicate Damage(e: seq<byte>, d: seq<byte>, at: nat, end: nat) {
    && |d| == |e| >= HEADER_SIZE && at <= end <= |e| && end <= at + 4
    && d[..at] == e[..at] && d[end..] == e[end..]
    && (end <= 4 || 4 <= at)
  }

  /** The length that the sizes of a record announce. */
  function Announced(d: seq<byte>): nat
    requires |d| >= HEADER_SIZE
  {
    HEADER_SIZE + LE.Get16(d, 21) as int + LE.Get32(d, 23) as int
  }

  lemma RecordSizes(r: Rec, e: seq<byte>)
    requires Writable(r) && e == RecBytes(r, StoreSum)
    ensures Announced(e) == |e|
  {
    BodyParts(r, e, StoreSum);
    SizesBack(e, 0, r, Head(r));
  }

  /** Damage that stays away from the sizes leaves the announced length. */
  lemma SizesUntouched(e: seq<byte>, d: seq<byte>, at: nat, end: nat)
    requires Damage(e, d, at, end) && (end <= 21 || HEADER_SIZE <= at)
    ensures Announced(d) == Announced(e)
  {
    assert d[21..23] == e[21..23] && d[23..27] == e[23..27] by {
      if end <= 21 {
        assert d[21..23] == d[end..][21 - end..23 - end] && e[21..23] == e[end..][21 - end..23 - end];
        assert d[23..27] == d[end..][23 - end..27 - end] && e[23..27] == e[end..][23 - end..27 - end];
      } else {
        assert d[21..23] == d[..at][21..23] && e[21..23] == e[..at][21..23];
        assert d[23..27] == d[..at][23..27] && e[23..27] == e[..at][23..27];
      }
    }
  }

  lemma Behind(e: seq<byte>, d: seq<byte>, at: nat, end: nat)
    requires |d| == |e| && 4 <= at <= end <= |e| && d[..at] == e[..at] && d[end..] == e[end..]
    ensures d[0..4] == e[0..4] && d[4..][..at - 4] == e[4..][..at - 4] && d[4..][end - 4..] == e[4..][end - 4..]
  {
    assert d[0..4] == d[..at][..4] && e[0..4] == e[..at][..4];
    assert d[4..][..at - 4] == d[..at][4..] && e[4..][..at - 4] == e[..at][4..];
    assert d[4..][end - 4..] == d[end..] && e[4..][end - 4..] == e[end..];
  }

  /** The checksum that is stored and the one that is computed agree only if nothing has changed. */
  lemma ChecksumTells(r: Rec, e: seq<byte>, d: seq<byte>, at: nat, end: nat)
    requires Writable(r) && e == RecBytes(r, StoreSum) && Damage(e, d, at, end)
    ensures StoreSum(d[4..]) == LE.Get32(d, 0) <==> d == e
  {
    BodyParts(r, e, StoreSum);
    var sum := StoreSum(Covered(r));
    LE.GetPut32(sum, e, 0);
    assert e == e[0..4] + e[4..] && d == d[0..4] + d[4..];
    if end <= 4 {
      assert d[4..] == d[end..][4 - end..] && e[4..] == e[end..][4 - end..];
      LE.PutGet(d[0..4]);
      LE.PutGet(e[0..4]);
    } else {
      Behind(e, d, at, end);
      SumTells(e[4..], d[4..], at - 4, end - 4);
    }
  }

  /** Bytes that announce their own length are decoded exactly if the checksum fits. */
  lemma OkExactly(d: seq<byte>, sum: Checksum)
    requires |d| >= HEADER_SIZE
    ensures Announced(d) > |d| ==> DecodeRecord(d, sum) == BufferTooShort
    ensures Announced(d) == |d| ==> (DecodeRecord(d, sum).Ok? <==> sum(d[4..]) == LE.Get32(d, 0))
    ensures Announced(d) == |d| && sum(d[4..]) != LE.Get32(d, 0) ==> DecodeRecord(d, sum) == BadCrc
  {
    assert d[4..|d|] == d[4..];
  }

  /** A damaged record is refused, whatever the damage puts in the place of the bytes, the sizes included, as long as
      these still announce the record's length; if they announce more, it is cut short. */
  lemma DamagedRecordIsRefused(r: Rec, e: seq<byte>, d: seq<byte>, at: nat, end: nat)
    requires Writable(r) && e == RecBytes(r, StoreSum) && Damage(e, d, at, end)
    ensures Announced(d) == |d| ==> DecodeRecord(d, StoreSum) == if d == e then Ok(r) else BadCrc
    ensures Announced(d) > |d| ==> DecodeRecord(d, StoreSum) == BufferTooShort
    ensures end <= 21 || HEADER_SIZE <= at ==> Announced(d) == |d|
  {
    DecodeUndoesEncode(r, e, StoreSum);
    ChecksumTells(r, e, d, at, end);
    OkExactly(d, StoreSum);
    if end <= 21 || HEADER_SIZE <= at {
      SizesUntouched(e, d, at, end);
      RecordSizes(r, e);
    }
  }

  /** In a file a scan that meets a damaged record skips it as damaged and goes on behind it. */
  lemma ScanSeesDamage(f: seq<byte>, start: nat, r: Rec, e: seq<byte>, d: seq<byte>, at: nat, end: nat)
    requires Foldable(r) && e == RecBytes(r, StoreSum) && Damage(e, d, at, end) && d != e && Announced(d) == |d|
    requires start + |d| <= |f| && f[start..start + |d|] == d
    ensures LookAt(f, start, StoreSum) == Damaged(|e|)
  {
    DamagedRecordIsRefused(r, e, d, at, end);
    TotalThere(f, start, d);
    LookIsDamaged(f, start, d, StoreSum);
  }

  lemma SizesAt(f: seq<byte>, start: nat, d: seq<byte>)
    requires |d| >= HEADER_SIZE && start + |d| <= |f| && f[start..start + |d|] == d
    ensures LE.Get16(f, start + 21) == LE.Get16(d, 21) && LE.Get32(f, start + 23) == LE.Get32(d, 23)
  {
    Within(f, d, start, 21, 23);
    Within(f, d, start, 23, 27);
  }

  lemma TotalThere(f: seq<byte>, start: nat, d: seq<byte>)
    requires |d| >= HEADER_SIZE && start + |d| <= |f| && f[start..start + |d|] == d && Announced(d) < 0x1_0000_0000
    ensures TotalAt(f, start) as int == Announced(d)
  {
    SizesAt(f, start, d);
  }

  lemma LookIsDamaged(f: seq<byte>, start: nat, d: seq<byte>, sum: Checksum)
    requires |d| >= HEADER_SIZE && start + |d| <= |f| && f[start..start + |d|] == d && TotalAt(f, start) as int == |d|
    ensures DecodeRecord(d, sum) == BadCrc ==> LookAt(f, start, sum) == Damaged(|d|)
  {
  }

  /** Damage across the border of the checksum is another matter: whatever is put behind the checksum, bytes of the
      checksum can be put in front of it that hide the damage, exactly if those that stay are right by chance. */
  lemma HiddenExactly(e: seq<byte>, c: seq<byte>, at: nat)
    requires |e| == |c| + 4 && at <= 4
    ensures (exists d :: |d| == |e| && d[..at] == e[..at] && d[4..] == c && StoreSum(c) == LE.Get32(d, 0))
       <==> LE.Put32(StoreSum(c))[..at] == e[..at]
  {
    var right := LE.Put32(StoreSum(c));
    if right[..at] == e[..at] {
      var d := right + c;
      LE.GetPut32(StoreSum(c), d, 0);
      assert d[4..] == c && d[..at] == e[..at];
    }
    if d :| |d| == |e| && d[..at] == e[..at] && d[4..] == c && StoreSum(c) == LE.Get32(d, 0) {
      LE.PutGet(d[0..4]);
      assert right[..at] == d[0..4][..at] == d[..at];
    }
  }
}
