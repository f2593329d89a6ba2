/**
  Damage to a record across the border between its checksum and the bytes that the checksum covers
  (src/fileops/codec.cpp 38-117). It can go unnoticed: there are documents that turn into tombstones by other
  bytes in four neighbouring places.
 */
module StraddlingDamage {
  import opened Bytes
  import LE = LittleEndian
  import opened Crc32
  import opened CrcUpdate
  import opened CrcValues
  import opened RecordFormat
  import opened RecordIntegrity

  // ---------------------------------------------------------------------------------------
  // How a difference moves through the register
  // ---------------------------------------------------------------------------------------

  lemma BothOdd(x: bv32, y: bv32, z: bv32, u: bv32, v: bv32, w: bv32)
    requires x & 1 == 1 && y & 1 == 1 && z == x ^ y && u == Shift(x) && v == Shift(y) && w == Shift(z)
    ensures w == u ^ v
  {
  }

  lemma FirstOdd(x: bv32, y: bv32, z: bv32, u: bv32, v: bv32, w: bv32)
    requires x & 1 == 1 && y & 1 == 0 && z == x ^ y && u == Shift(x) && v == Shift(y) && w == Shift(z)
    ensures w == u ^ v
  {
  }

  lemma BothEven(x: bv32, y: bv32, z: bv32, u: bv32, v: bv32, w: bv32)
    requires x & 1 == 0 && y & 1 == 0 && z == x ^ y && u == Shift(x) && v == Shift(y) && w == Shift(z)
    ensures w == u ^ v
  {
  }

  lemma OddOrEven(x: bv32)
    ensures x & 1 == 0 || x & 1 == 1
  {
  }

  lemma ShiftApart(x: bv32, y: bv32, z: bv32, u: bv32, v: bv32, w: bv32)
    requires z == x ^ y && u == Shift(x) && v == Shift(y) && w == Shift(z)
    ensures w == u ^ v
  {
    OddOrEven(x);
    OddOrEven(y);
    if x & 1 == 1 && y & 1 == 1 {
      BothOdd(x, y, z, u, v, w);
    } else if x & 1 == 1 {
      FirstOdd(x, y, z, u, v, w);
    } else if y & 1 == 1 {
      FirstOdd(y, x, z, v, u, w);
    } else {
      BothEven(x, y, z, u, v, w);
    }
  }

  /** Registers a difference of z apart are as far apart after n steps as z has then come. */
  lemma {:induction false} ShiftNApart(x: bv32, y: bv32, z: bv32, n: nat, p: bv32, q: bv32, r: bv32)
    requires z == x ^ y && p == ShiftN(x, n) && q == ShiftN(y, n) && r == ShiftN(z, n)
    ensures r == p ^ q
    decreases n
  {
    if n > 0 {
      var u, v, w := OneStep(x, y, z);
      ShiftNApart(u, v, w, n - 1, p, q, r);
    }
  }

  lemma OneStep(x: bv32, y: bv32, z: bv32) returns (u: bv32, v: bv32, w: bv32)
    requires z == x ^ y
    ensures u == Shift(x) && v == Shift(y) && w == Shift(z) && w == u ^ v
  {
    u, v, w := Shift(x), Shift(y), Shift(z);
    ShiftApart(x, y, z, u, v, w);
  }

  lemma Shuffled(a: bv32, b: bv32, p: bv32, q: bv32, x: bv32, y: bv32, d: bv32, e: bv32)
    requires x == a ^ p && y == b ^ q && d == a ^ b && e == p ^ q
    ensures d ^ e == x ^ y
  {
  }

  /** Two registers a difference of d apart are fed bytes that differ by e. */
  lemma Fed(a: bv32, b: bv32, p: bv8, q: bv8, v: bv32, w: bv32, d: bv32, e: bv32, n: nat)
      returns (a': bv32, b': bv32, d': bv32)
    requires v == p as bv32 && w == q as bv32 && d == a ^ b && e == v ^ w && n == 8
    ensures a' == Run(a, [p]) && b' == Run(b, [q]) && d' == ShiftN(d ^ e, n) && d' == a' ^ b'
  {
    var x, y, z := a ^ v, b ^ w, d ^ e;
    a', b', d' := ShiftN(x, n), ShiftN(y, n), ShiftN(z, n);
    Shuffled(a, b, v, w, x, y, d, e);
    ShiftNApart(x, y, z, n, a', b', d');
    ByteFed(a, p, v, x, n);
    ByteFed(b, q, w, y, n);
  }

  lemma NoDifference(d: bv32, w: bv32)
    ensures w ^ w == 0 && d ^ 0 == d
  {
  }

  lemma FedTheSame(a: bv32, b: bv32, p: bv8, d: bv32, n: nat) returns (a': bv32, b': bv32, d': bv32)
    requires d == a ^ b && n == 8
    ensures a' == Run(a, [p]) && b' == Run(b, [p]) && d' == ShiftN(d, n) && d' == a' ^ b'
  {
    var w := p as bv32;
    NoDifference(d, w);
    a', b', d' := Fed(a, b, p, p, w, w, d, 0, n);
  }

  /** The register after so many zero bytes of n bits. */
  function Zeros(x: bv32, bytes: nat, n: nat): bv32
    decreases bytes, x
  {
    if bytes == 0 then x else Zeros(ShiftN(x, n), bytes - 1, n)
  }

  lemma RunFirst(c: bv32, b: bv8, rest: seq<bv8>, s: seq<bv8>, next: bv32)
    requires s == [b] + rest && next == Run(c, [b])
    ensures Run(c, s) == Run(next, rest)
  {
    RunConcat(c, [b], rest);
  }

  /** Bytes in common move the difference along, whatever they are. */
  lemma {:induction false} CommonBytes(a: bv32, b: bv32, s: seq<bv8>, d: bv32, n: nat, p: bv32, q: bv32)
    requires d == a ^ b && n == 8 && p == Run(a, s) && q == Run(b, s)
    ensures p ^ q == Zeros(d, |s|, n)
    decreases |s|
  {
    if s == [] {
      assert MessageBits(s) == [];
    } else {
      var a', b', d' := FedTheSame(a, b, s[0], d, n);
      RunFirst(a, s[0], s[1..], s, a');
      RunFirst(b, s[0], s[1..], s, b');
      CommonBytes(a', b', s[1..], d', n, p, q);
    }
  }

  // ---------------------------------------------------------------------------------------
  // The numbers
  // ---------------------------------------------------------------------------------------

  lemma FourZeros(x: bv32, y: bv32, k: nat, n: nat)
    requires n == 8 && EightShifts(EightShifts(EightShifts(EightShifts(x)))) == y
    ensures Zeros(x, k + 4, n) == Zeros(y, k, n)
  {
    var x1 := EightShifts(x);
    var x2 := EightShifts(x1);
    var x3 := EightShifts(x2);
    Eight(x, x1, n);
    Eight(x1, x2, n);
    Eight(x2, x3, n);
    Eight(x3, y, n);
    assert Zeros(x, k + 4, n) == Zeros(x1, k + 3, n) == Zeros(x2, k + 2, n) == Zeros(x3, k + 1, n);
  }

  lemma FirstBytes(n: nat)
    requires n == 8
    ensures ShiftN(ShiftN(1, n) ^ 0x70, n) == 0x491E407D
  {
    Eight(1, 0x77073096, n);
    Eight(0x770730E6, 0x491E407D, n);
  }

  lemma FirstQuarter(k: nat, n: nat)
    requires k >= 12 && n == 8
    ensures Zeros(0x491E407D, k, n) == Zeros(0x27FB9DF2, k - 12, n)
  {
    FourZeros(0x491E407D, 0x328E336A, k - 4, n);
    FourZeros(0x328E336A, 0x1F61A8EB, k - 8, n);
    FourZeros(0x1F61A8EB, 0x27FB9DF2, k - 12, n);
  }

  lemma SecondQuarter(k: nat, n: nat)
    requires k >= 12 && n == 8
    ensures Zeros(0x27FB9DF2, k, n) == Zeros(0xB40954DC, k - 12, n)
  {
    FourZeros(0x27FB9DF2, 0x8BE67892, k - 4, n);
    FourZeros(0x8BE67892, 0x3FE51E05, k - 8, n);
    FourZeros(0x3FE51E05, 0xB40954DC, k - 12, n);
  }

  lemma ThirdQuarter(k: nat, n: nat)
    requires k >= 12 && n == 8
    ensures Zeros(0xB40954DC, k, n) == Zeros(0x784C6C90, k - 12, n)
  {
    FourZeros(0xB40954DC, 0x1AF94C91, k - 4, n);
    FourZeros(0x1AF94C91, 0x446051EB, k - 8, n);
    FourZeros(0x446051EB, 0x784C6C90, k - 12, n);
  }

  lemma LastQuarter(k: nat, n: nat)
    requires k >= 12 && n == 8
    ensures Zeros(0x784C6C90, k, n) == Zeros(0xF9EC0000, k - 12, n)
  {
    FourZeros(0x784C6C90, 0xFE9F2AE7, k - 4, n);
    FourZeros(0xFE9F2AE7, 0xD2AEF379, k - 8, n);
    FourZeros(0xD2AEF379, 0xF9EC0000, k - 12, n);
  }

  /** A difference of 1 in the first byte and 0x70 in the second is gone from the lower half of the register after 48
      more. */
  lemma Vanishes(x: bv32, y: bv32, k: nat, n: nat)
    requires k == 48 && n == 8 && x == ShiftN(1, n) && y == ShiftN(x ^ 0x70, n)
    ensures Zeros(y, k, n) == 0xF9EC0000
  {
    FirstBytes(n);
    FirstQuarter(k, n);
    SecondQuarter(k - 12, n);
    ThirdQuarter(k - 24, n);
    LastQuarter(k - 36, n);
  }

  lemma InvertedApart(x: bv32, y: bv32, p: bv32, q: bv32)
    requires p == Inverted(x) && q == Inverted(y)
    ensures p ^ q == x ^ y
  {
  }

  lemma NothingYet(x: bv32)
    ensures 0 == x ^ x && (0 as bv32) ^ 1 == 1
  {
  }

  /** The registers behind two such messages. */
  lemma RegistersApart(start: bv32, s: seq<bv8>, t: seq<bv8>, rest: seq<bv8>, x: bv32, y: bv32, n: nat)
    requires s == [0, 0] + rest && t == [1, 0x70] + rest && |rest| == 48 && n == 8 && x == Run(start, s)
    requires y == Run(start, t)
    ensures x ^ y == 0xF9EC0000
  {
    var s1, t1 := [0] + rest, [0x70] + rest;
    assert s == [0] + s1 && t == [1] + t1;
    NothingYet(start);
    var a, b, d := Fed(start, start, 0, 1, 0, 1, 0, 1, n);
    var a', b', d' := Fed(a, b, 0, 0x70, 0, 0x70, d, 0x70, n);
    RunFirst(start, 0, s1, s, a);
    RunFirst(start, 1, t1, t, b);
    RunFirst(a, 0, rest, s1, a');
    RunFirst(b, 0x70, rest, t1, b');
    CommonBytes(a', b', rest, d', n, x, y);
    Vanishes(d, d', |rest|, n);
  }

  /** Their checksums agree in the lower half, whatever the other bytes are. */
  lemma ChecksumsAgree(seed: bv32, s: seq<bv8>, t: seq<bv8>, rest: seq<bv8>, p: bv32, q: bv32, n: nat)
    requires s == [0, 0] + rest && t == [1, 0x70] + rest && |rest| == 48 && n == 8 && p == Crc(seed, s)
    requires q == Crc(seed, t)
    ensures p ^ q == 0xF9EC0000
  {
    var start, x := Register(seed, s, p);
    var _, y := Register(seed, t, q);
    RegistersApart(start, s, t, rest, x, y, n);
    InvertedApart(x, y, p, q);
  }

  // ---------------------------------------------------------------------------------------
  // A document and a tombstone
  // ---------------------------------------------------------------------------------------

  lemma LowerHalf(p: bv32, q: bv32)
    requires p ^ q == 0xF9EC0000
    ensures LowOctet(p) == LowOctet(q) && LowOctet(p >> 8) == LowOctet(q >> 8)
  {
  }

  lemma OneByte(a: byte, m: nat, v: nat, n: nat)
    requires v == a as int + 256 * m && n > 0
    ensures LE.Put(v, n) == [a] + LE.Put(m, n - 1)
  {
    assert v % 256 == a as int && v / 256 == m;
  }

  lemma SameLowBytes(p: bv32, q: bv32)
    requires p ^ q == 0xF9EC0000
    ensures LE.Put32(Number(p))[..2] == LE.Put32(Number(q))[..2]
  {
    LowerHalf(p, q);
    NumberBytes(p);
    NumberBytes(q);
  }

  lemma OctetsOfTwo(x: byte, y: byte, o: bv8, q: bv8, rest: seq<byte>, s: seq<byte>)
    requires s == [x, y] + rest && x == o as int && y == q as int
    ensures Octets(s) == [o, q] + Octets(rest)
  {
    SameOctet(x, o);
    SameOctet(y, q);
  }

  /** What the checksums cover: type and first byte of the time, and the same bytes behind them. */
  lemma CoveredApart(r: Rec, r': Rec) returns (rest: seq<byte>)
    requires Writable(r) && r.kind == 0 && r.tstamp % 256 == 0 && r' == r.(kind := 1, tstamp := r.tstamp + 0x70)
    ensures Covered(r) == [0, 0] + rest && Covered(r') == [1, 0x70] + rest
  {
    var m := r.tstamp / 256;
    var t := LE.Put(m, 7);
    OneByte(0, m, r.tstamp, 8);
    OneByte(0x70, m, r'.tstamp, 8);
    var ord, sizes, body := LE.Put64(r.ord), LE.Put16(|r.key|) + LE.Put32(|r.value|), r.key + r.value;
    rest := t + ord + sizes + body;
    HeadIs(r, 0, 0, t, ord, sizes, body, rest);
    HeadIs(r', 1, 0x70, t, ord, sizes, body, rest);
  }

  lemma HeadIs(r: Rec, kind: byte, low: byte, t: seq<byte>, ord: seq<byte>, sizes: seq<byte>, body: seq<byte>,
               rest: seq<byte>)
    requires Writable(r) && r.kind == kind && LE.Put64(r.tstamp) == [low] + t && ord == LE.Put64(r.ord)
    requires sizes == LE.Put16(|r.key|) + LE.Put32(|r.value|) && body == r.key + r.value
    requires rest == t + ord + sizes + body
    ensures Covered(r) == [kind, low] + rest
  {
    var k, l := LE.Put16(|r.key|), LE.Put32(|r.value|);
    assert Head(r) == [kind] + ([low] + t) + ord + k + l;
    Regrouped([kind], [low], t, ord, k, l, body);
    assert [kind] + [low] == [kind, low];
  }

  lemma Regrouped(a: seq<byte>, b: seq<byte>, c: seq<byte>, d: seq<byte>, e: seq<byte>, f: seq<byte>, g: seq<byte>)
    ensures (a + (b + c) + d + e + f) + g == (a + b) + (c + d + (e + f) + g)
  {
  }

  /** Take any document record with 27 bytes of key and value and a time that is a multiple of 256. Replacing bytes 2
      to 5, two of the checksum, the type and one of the time, turns it into a tombstone that decodes as well. */
  lemma DocumentTurnsIntoTombstone(r: Rec, r': Rec, e: seq<byte>, d: seq<byte>)
    requires Writable(r) && |r.key| + |r.value| == 27 && r.kind == 0 && r.tstamp % 256 == 0
    requires r' == r.(kind := 1, tstamp := r.tstamp + 0x70) && e == RecBytes(r, StoreSum) && d == RecBytes(r', StoreSum)
    ensures |d| == |e| && d[..2] == e[..2] && d[6..] == e[6..] && d != e
    ensures DecodeRecord(d, StoreSum) == Ok(r')
  {
    var rest := CoveredApart(r, r');
    var s, t := Covered(r), Covered(r');
    OctetsOfTwo(0, 0, 0, 0, rest, s);
    OctetsOfTwo(1, 0x70, 1, 0x70, rest, t);
    var p, q := Crc(0, Octets(s)), Crc(0, Octets(t));
    ChecksumsAgree(0, Octets(s), Octets(t), Octets(rest), p, q, 8);
    SameLowBytes(p, q);
    Spliced(LE.Put32(StoreSum(s)), s, [0, 0], rest, e);
    Spliced(LE.Put32(StoreSum(t)), t, [1, 0x70], rest, d);
    DecodeUndoesEncode(r', d, StoreSum);
  }

  lemma Spliced(sum: seq<byte>, covered: seq<byte>, two: seq<byte>, rest: seq<byte>, e: seq<byte>)
    requires |sum| == 4 && |two| == 2 && covered == two + rest && e == sum + covered
    ensures e[..2] == sum[..2] && e[6..] == rest && e[4] == two[0] && |e| == 6 + |rest|
  {
  }
}
