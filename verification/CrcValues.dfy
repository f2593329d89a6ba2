/**
  What the CRC of particular bytes is, and laws that no other start, end or polynomial would satisfy: the value of
  one byte and of the usual check string, the constant that follows from appending a message's own CRC, and when a
  zero byte in front of a message changes its CRC.
 */
module CrcValues {
  import opened Crc32
  import opened CrcUpdate
  import opened CrcErrorDetection

  lemma SmallByte(b: bv8, w: bv32)
    requires w == b as bv32
    ensures w >> 8 == 0
  {
  }

  lemma ZeroAdds(x: bv32)
    ensures x ^ 0 == x
  {
  }

  /** One byte is eight steps of the register with the byte added. */
  lemma ByteFed(c: bv32, b: bv8, w: bv32, x: bv32, n: nat)
    requires w == b as bv32 && x == c ^ w && n == 8
    ensures Run(c, [b]) == ShiftN(x, n)
  {
    RunOneMore(c, [b], 0, w, n);
    assert [b][..0] == [] && [b][..1] == [b];
    AbsorbWord(c, w, x, n);
    ShiftedRight8(w, n);
    SmallByte(b, w);
    ZeroAdds(RunBits(c, LowBits(w, n)));
  }

  lemma Eight(x: bv32, y: bv32, n: nat)
    requires n == 8 && EightShifts(x) == y
    ensures ShiftN(x, n) == y
  {
    EightShiftsIsShiftN(x);
  }

  // ---------------------------------------------------------------------------------------
  // Values
  // ---------------------------------------------------------------------------------------

  /** The register after one more byte, by numbers alone. */
  lemma NextValue(start: bv32, s: seq<bv8>, b: bv8, c: bv32, w: bv32, x: bv32, y: bv32, t: seq<bv8>)
    requires c == Run(start, s) && t == s + [b] && w == b as bv32 && x == c ^ w && EightShifts(x) == y
    ensures y == Run(start, t)
  {
    var n: nat := 8;
    Eight(x, y, n);
    ByteFed(c, b, w, x, n);
    RunConcat(start, s, [b]);
  }

  /** The register starts with all bits set and is inverted again at the end. */
  lemma FromOnes(s: seq<bv8>, state: bv32, value: bv32, crc: bv32)
    requires state == Run(0xFFFF_FFFF, s) && state == value ^ 0xFFFF_FFFF && crc == Crc(0, s)
    ensures crc == value
  {
    var start, end := Register(0, s, crc);
    AllOnes(start);
    SameEnd(start, end, s, state);
    InvertedBits(end, crc);
    TwiceFlipped(value, state, end, crc);
  }

  lemma SameEnd(start: bv32, end: bv32, s: seq<bv8>, state: bv32)
    requires start == 0xFFFF_FFFF && end == Run(start, s) && state == Run(0xFFFF_FFFF, s)
    ensures end == state
  {
  }

  lemma AllOnes(start: bv32)
    requires start == Inverted(0)
    ensures start == 0xFFFF_FFFF
  {
  }

  lemma TwiceFlipped(x: bv32, y: bv32, y': bv32, z: bv32)
    requires y == x ^ 0xFFFF_FFFF && y' == y && z == y' ^ 0xFFFF_FFFF
    ensures z == x
  {
  }

  lemma Nothing(start: bv32)
    ensures start == Run(start, [])
  {
    assert MessageBits([]) == [];
  }

  lemma OfZeroByte()
    ensures Crc(0, [0]) == 0xD202_EF8D
  {
    Nothing(0xFFFF_FFFF);
    assert [] + [0] == [0 as bv8];
    NextValue(0xFFFF_FFFF, [], 0, 0xFFFF_FFFF, 0, 0xFFFF_FFFF, 0x2DFD_1072, [0]);
    FromOnes([0], 0x2DFD_1072, 0xD202_EF8D, Crc(0, [0]));
  }

  lemma FirstThird()
    ensures Run(0xFFFF_FFFF, [0x31, 0x32, 0x33]) == 0x77B7_9C2D
  {
    Nothing(0xFFFF_FFFF);
    var a: seq<bv8>, b: seq<bv8>, c: seq<bv8> := [0x31], [0x31, 0x32], [0x31, 0x32, 0x33];
    assert a == [] + [0x31] && b == a + [0x32] && c == b + [0x33];
    NextValue(0xFFFF_FFFF, [], 0x31, 0xFFFF_FFFF, 0x31, 0xFFFF_FFCE, 0x7C23_1048, a);
    NextValue(0xFFFF_FFFF, a, 0x32, 0x7C23_1048, 0x32, 0x7C23_107A, 0xB0AC_BB32, b);
    NextValue(0xFFFF_FFFF, b, 0x33, 0xB0AC_BB32, 0x33, 0xB0AC_BB01, 0x77B7_9C2D, c);
  }

  lemma SecondThird()
    ensures Run(0x77B7_9C2D, [0x34, 0x35, 0x36]) == 0xF68D_2C9E
  {
    Nothing(0x77B7_9C2D);
    var a: seq<bv8>, b: seq<bv8>, c: seq<bv8> := [0x34], [0x34, 0x35], [0x34, 0x35, 0x36];
    assert a == [] + [0x34] && b == a + [0x35] && c == b + [0x36];
    NextValue(0x77B7_9C2D, [], 0x34, 0x77B7_9C2D, 0x34, 0x77B7_9C19, 0x641C_1F5C, a);
    NextValue(0x77B7_9C2D, a, 0x35, 0x641C_1F5C, 0x35, 0x641C_1F69, 0x340A_C5E3, b);
    NextValue(0x77B7_9C2D, b, 0x36, 0x340A_C5E3, 0x36, 0x340A_C5D5, 0xF68D_2C9E, c);
  }

  lemma LastThird()
    ensures Run(0xF68D_2C9E, [0x37, 0x38, 0x39]) == 0x340B_C6D9
  {
    Nothing(0xF68D_2C9E);
    var a: seq<bv8>, b: seq<bv8>, c: seq<bv8> := [0x37], [0x37, 0x38], [0x37, 0x38, 0x39];
    assert a == [] + [0x37] && b == a + [0x38] && c == b + [0x39];
    NextValue(0xF68D_2C9E, [], 0x37, 0xF68D_2C9E, 0x37, 0xF68D_2CA9, 0xAFFC_9660, a);
    NextValue(0xF68D_2C9E, a, 0x38, 0xAFFC_9660, 0x38, 0xAFFC_9658, 0x651F_2550, b);
    NextValue(0xF68D_2C9E, b, 0x39, 0x651F_2550, 0x39, 0x651F_2569, 0x340B_C6D9, c);
  }

  /** The check string "123456789". */
  lemma CheckValue()
    ensures Crc(0, [0x31, 0x32, 0x33, 0x34, 0x35, 0x36, 0x37, 0x38, 0x39]) == 0xCBF4_3926
  {
    var a: seq<bv8>, b: seq<bv8>, c: seq<bv8> := [0x31, 0x32, 0x33], [0x34, 0x35, 0x36], [0x37, 0x38, 0x39];
    var s: seq<bv8> := [0x31, 0x32, 0x33, 0x34, 0x35, 0x36, 0x37, 0x38, 0x39];
    FirstThird();
    SecondThird();
    LastThird();
    RunConcat(0xFFFF_FFFF, a, b);
    RunConcat(0xFFFF_FFFF, a + b, c);
    assert s == (a + b) + c;
    FromOnes(s, 0x340B_C6D9, 0xCBF4_3926, Crc(0, s));
  }

  // ---------------------------------------------------------------------------------------
  // A zero byte in front
  // ---------------------------------------------------------------------------------------

  lemma OnlyZeroStays(x: bv32)
    ensures EightShifts(x) == x <==> x == 0
  {
  }

  lemma FirstZero(start: bv32, s: seq<bv8>, t: seq<bv8>, next: bv32)
    requires t == [0] + s && next == EightShifts(start)
    ensures Run(start, t) == Run(next, s)
  {
    var n: nat := 8;
    ZeroAdds(start);
    ByteFed(start, 0, 0, start, n);
    Eight(start, next, n);
    RunConcat(start, [0], s);
  }

  /** A zero byte in front changes the CRC of every message, whatever seed it is continued from, but for one seed. */
  lemma ZeroInFront(seed: bv32, s: seq<bv8>, t: seq<bv8>, p: bv32, q: bv32)
    requires t == [0] + s && p == Crc(seed, s) && q == Crc(seed, t)
    ensures p == q <==> seed == 0xFFFF_FFFF
  {
    var start, x := Register(seed, s, p);
    var _, y := Register(seed, t, q);
    var next := EightShifts(start);
    FirstZero(start, s, t, next);
    OnlyZeroStays(start);
    StartIsZero(seed, start);
    if next != start {
      DifferenceSurvives(start, next, MessageBits(s));
      InvertedDiffer(x, y, p, q);
    }
  }

  lemma StartIsZero(seed: bv32, start: bv32)
    requires start == Inverted(seed)
    ensures start == 0 <==> seed == 0xFFFF_FFFF
  {
  }

  // ---------------------------------------------------------------------------------------
  // A message with its own CRC behind it
  // ---------------------------------------------------------------------------------------

  /** The lowest eight bits. */
  function LowOctet(x: bv32): bv8 {
    (x & 0xFF) as bv8
  }

  /** A CRC as it is stored, lowest byte first. */
  function Stored(crc: bv32): seq<bv8> {
    [LowOctet(crc), LowOctet(crc >> 8), LowOctet(crc >> 16), LowOctet(crc >> 24)]
  }

  lemma StepBits(u: bv32, y: bv32, k: bv32, w: bv32, x: bv32, low: bv32, hi: bv32)
    requires y == k ^ u && w == (u & 0xFF) ^ 0xFF && x == y ^ w && low == (k & 0xFF) ^ 0xFF && hi == (k >> 8) ^ (u >> 8)
    ensures low == x & 0xFF && hi == x >> 8
  {
  }

  lemma Fed(y: bv32, b: bv8, w: bv32, x: bv32, low: bv32, hi: bv32, t: bv32, z: bv32)
    requires w == b as bv32 && x == y ^ w && low == x & 0xFF && hi == x >> 8 && t == EightShifts(low)
    requires z == Run(y, [b])
    ensures z == t ^ hi
  {
    var n: nat := 8;
    ByteFed(y, b, w, x, n);
    EightShiftsLowPart(x, low, n);
    Eight(low, t, n);
  }

  lemma Together(t: bv32, k: bv32, u: bv32, hi: bv32, z: bv32, k': bv32)
    requires hi == k ^ u && z == t ^ hi && k' == t ^ k
    ensures z == k' ^ u
  {
  }

  /** One byte of the CRC is fed back: what the register holds of the message moves out, and a constant stays. */
  lemma FedBack(u: bv32, u': bv32, y: bv32, k: bv32, kh: bv32, b: bv8, w: bv32, low: bv32, t: bv32, k': bv32, z: bv32)
    requires y == k ^ u && u' == u >> 8 && kh == k >> 8 && w == b as bv32 && w == (u & 0xFF) ^ 0xFF
    requires low == (k & 0xFF) ^ 0xFF && t == EightShifts(low) && k' == t ^ kh && z == Run(y, [b])
    ensures z == k' ^ u'
  {
    var x, hi := y ^ w, kh ^ u';
    StepBits(u, y, k, w, x, low, hi);
    Fed(y, b, w, x, low, hi, t, z);
    Together(t, kh, u', hi, z, k');
  }

  lemma FirstByteOf(x: bv32, crc: bv32, b: bv8) returns (w: bv32)
    requires crc == x ^ 0xFFFF_FFFF && b == LowOctet(crc)
    ensures w == b as bv32 && w == (x & 0xFF) ^ 0xFF
  {
    w := b as bv32;
  }

  lemma SecondByteOf(x: bv32, crc: bv32, u: bv32, b: bv8) returns (w: bv32)
    requires crc == x ^ 0xFFFF_FFFF && u == x >> 8 && b == LowOctet(crc >> 8)
    ensures w == b as bv32 && w == (u & 0xFF) ^ 0xFF
  {
    w := b as bv32;
  }

  lemma ThirdByteOf(x: bv32, crc: bv32, u: bv32, b: bv8) returns (w: bv32)
    requires crc == x ^ 0xFFFF_FFFF && u == x >> 16 && b == LowOctet(crc >> 16)
    ensures w == b as bv32 && w == (u & 0xFF) ^ 0xFF
  {
    w := b as bv32;
  }

  lemma LastByteOf(x: bv32, crc: bv32, u: bv32, b: bv8) returns (w: bv32)
    requires crc == x ^ 0xFFFF_FFFF && u == x >> 24 && b == LowOctet(crc >> 24)
    ensures w == b as bv32 && w == (u & 0xFF) ^ 0xFF
  {
    w := b as bv32;
  }

  /** How the constant that is left in the register changes with every byte. */
  predicate Follows(k: bv32, k': bv32) {
    k' == EightShifts((k & 0xFF) ^ 0xFF) ^ (k >> 8)
  }

  lemma OneBack(u: bv32, u': bv32, y: bv32, k: bv32, b: bv8, w: bv32, k': bv32) returns (z: bv32)
    requires y == k ^ u && u' == u >> 8 && w == b as bv32 && w == (u & 0xFF) ^ 0xFF && Follows(k, k')
    ensures z == Run(y, [b]) && z == k' ^ u'
  {
    var kh, low := k >> 8, (k & 0xFF) ^ 0xFF;
    var t := EightShifts(low);
    z := Run(y, [b]);
    FedBack(u, u', y, k, kh, b, w, low, t, k', z);
  }

  lemma FirstBack(x: bv32, u: bv32, b: bv8, w: bv32) returns (z: bv32)
    requires u == x >> 8 && w == b as bv32 && w == (x & 0xFF) ^ 0xFF
    ensures z == Run(x, [b]) && z == 0x2D02_EF8D ^ u
  {
    var k, k' := FirstConstant();
    FromNothing(x, k);
    z := OneBack(x, u, x, k, b, w, k');
  }

  lemma FromNothing(x: bv32, k: bv32)
    requires k == 0
    ensures x == k ^ x
  {
  }

  lemma SecondBack(u: bv32, u': bv32, y: bv32, b: bv8, w: bv32) returns (z: bv32)
    requires y == 0x2D02_EF8D ^ u && u' == u >> 8 && w == b as bv32 && w == (u & 0xFF) ^ 0xFF
    ensures z == Run(y, [b]) && z == 0xBE26_12FF ^ u'
  {
    var k, k' := SecondConstant();
    z := OneBack(u, u', y, k, b, w, k');
  }

  lemma ThirdBack(u: bv32, u': bv32, y: bv32, b: bv8, w: bv32) returns (z: bv32)
    requires y == 0xBE26_12FF ^ u && u' == u >> 8 && w == b as bv32 && w == (u & 0xFF) ^ 0xFF
    ensures z == Run(y, [b]) && z == 0x00BE_2612 ^ u'
  {
    var k, k' := ThirdConstant();
    z := OneBack(u, u', y, k, b, w, k');
  }

  lemma LastBack(u: bv32, y: bv32, b: bv8, w: bv32) returns (z: bv32)
    requires y == 0x00BE_2612 ^ u && 0 == u >> 8 && w == b as bv32 && w == (u & 0xFF) ^ 0xFF
    ensures z == Run(y, [b]) && z == 0xDEBB_20E3
  {
    var k, k' := LastConstant();
    z := OneBack(u, 0, y, k, b, w, k');
    ZeroAdds(k');
  }

  lemma FirstConstant() returns (k: bv32, k': bv32)
    ensures k == 0 && k' == 0x2D02_EF8D && Follows(k, k')
  {
    k, k' := 0, 0x2D02_EF8D;
  }

  lemma SecondConstant() returns (k: bv32, k': bv32)
    ensures k == 0x2D02_EF8D && k' == 0xBE26_12FF && Follows(k, k')
  {
    k, k' := 0x2D02_EF8D, 0xBE26_12FF;
  }

  lemma ThirdConstant() returns (k: bv32, k': bv32)
    ensures k == 0xBE26_12FF && k' == 0x00BE_2612 && Follows(k, k')
  {
    k, k' := 0xBE26_12FF, 0x00BE_2612;
  }

  lemma LastConstant() returns (k: bv32, k': bv32)
    ensures k == 0x00BE_2612 && k' == 0xDEBB_20E3 && Follows(k, k')
  {
    k, k' := 0x00BE_2612, 0xDEBB_20E3;
  }

  /** Where the parts of the register and the bytes of the CRC come from. */
  lemma FirstPart(x: bv32, crc: bv32, s: seq<bv8>) returns (u: bv32, w: bv32)
    requires crc == x ^ 0xFFFF_FFFF && s == Stored(crc)
    ensures u == x >> 8 && w == s[0] as bv32 && w == (x & 0xFF) ^ 0xFF
  {
    u := x >> 8;
    w := FirstByteOf(x, crc, s[0]);
  }

  lemma SecondPart(x: bv32, crc: bv32, s: seq<bv8>, u: bv32) returns (u': bv32, w: bv32)
    requires crc == x ^ 0xFFFF_FFFF && s == Stored(crc) && u == x >> 8
    ensures u' == x >> 16 && w == s[1] as bv32 && w == (u & 0xFF) ^ 0xFF
  {
    u' := x >> 16;
    w := SecondByteOf(x, crc, u, s[1]);
  }

  lemma ThirdPart(x: bv32, crc: bv32, s: seq<bv8>, u: bv32) returns (u': bv32, w: bv32)
    requires crc == x ^ 0xFFFF_FFFF && s == Stored(crc) && u == x >> 16
    ensures u' == x >> 24 && w == s[2] as bv32 && w == (u & 0xFF) ^ 0xFF
  {
    u' := x >> 24;
    w := ThirdByteOf(x, crc, u, s[2]);
  }

  lemma LastPart(x: bv32, crc: bv32, s: seq<bv8>, u: bv32) returns (w: bv32)
    requires crc == x ^ 0xFFFF_FFFF && s == Stored(crc) && u == x >> 24
    ensures w == s[3] as bv32 && w == (u & 0xFF) ^ 0xFF
  {
    w := LastByteOf(x, crc, u, s[3]);
  }

  lemma PartsFollow(x: bv32, u1: bv32, u2: bv32, u3: bv32)
    requires u1 == x >> 8 && u2 == x >> 16 && u3 == x >> 24
    ensures u2 == u1 >> 8 && u3 == u2 >> 8 && 0 == u3 >> 8
  {
  }

  /** After the four bytes of the CRC the register is the same for all messages. */
  lemma AllFedBack(x: bv32, crc: bv32, s: seq<bv8>)
    requires crc == x ^ 0xFFFF_FFFF && s == Stored(crc)
    ensures Run(x, s) == 0xDEBB_20E3
  {
    var u1, w0 := FirstPart(x, crc, s);
    var u2, w1 := SecondPart(x, crc, s, u1);
    var u3, w2 := ThirdPart(x, crc, s, u2);
    var w3 := LastPart(x, crc, s, u3);
    PartsFollow(x, u1, u2, u3);
    FourFed(x, s, u1, u2, u3, w0, w1, w2, w3);
  }

  lemma FourFed(x: bv32, s: seq<bv8>, u1: bv32, u2: bv32, u3: bv32, w0: bv32, w1: bv32, w2: bv32, w3: bv32)
    requires |s| == 4 && u1 == x >> 8 && u2 == u1 >> 8 && u3 == u2 >> 8 && 0 == u3 >> 8
    requires w0 == s[0] as bv32 && w0 == (x & 0xFF) ^ 0xFF && w1 == s[1] as bv32 && w1 == (u1 & 0xFF) ^ 0xFF
    requires w2 == s[2] as bv32 && w2 == (u2 & 0xFF) ^ 0xFF && w3 == s[3] as bv32 && w3 == (u3 & 0xFF) ^ 0xFF
    ensures Run(x, s) == 0xDEBB_20E3
  {
    var y1 := FirstBack(x, u1, s[0], w0);
    var y2 := SecondBack(u1, u2, y1, s[1], w1);
    var y3 := ThirdBack(u2, u3, y2, s[2], w2);
    var y4 := LastBack(u3, y3, s[3], w3);
    FourBytes(x, s, y1, y2, y3, y4);
  }

  lemma FourBytes(x: bv32, s: seq<bv8>, y1: bv32, y2: bv32, y3: bv32, y4: bv32)
    requires |s| == 4 && y1 == Run(x, [s[0]]) && y2 == Run(y1, [s[1]]) && y3 == Run(y2, [s[2]]) && y4 == Run(y3, [s[3]])
    ensures Run(x, s) == y4
  {
    var a, b := [s[0]] + [s[1]], [s[2]] + [s[3]];
    RunConcat(x, [s[0]], [s[1]]);
    RunConcat(y2, [s[2]], [s[3]]);
    RunConcat(x, a, b);
    assert s == a + b;
  }

  /** Whatever the message and the seed, the CRC of a message followed by its own CRC is the same number. */
  lemma Residue(seed: bv32, s: seq<bv8>, crc: bv32, t: seq<bv8>, last: bv32)
    requires crc == Crc(seed, s) && t == s + Stored(crc) && last == Crc(seed, t)
    ensures last == 0x2144_DF1C
  {
    var start, x := Register(seed, s, crc);
    var _, z := Register(seed, t, last);
    RunConcat(start, s, Stored(crc));
    InvertedBits(x, crc);
    AllFedBack(x, crc, Stored(crc));
    LastInverted(z, last);
  }

  lemma LastInverted(z: bv32, last: bv32)
    requires z == 0xDEBB_20E3 && last == Inverted(z)
    ensures last == 0x2144_DF1C
  {
  }

  lemma InvertedBits(x: bv32, y: bv32)
    requires y == Inverted(x)
    ensures y == x ^ 0xFFFF_FFFF
  {
  }
}
