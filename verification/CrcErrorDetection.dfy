/**
  What the checksum is for. Two messages of equal length that differ only inside 32 consecutive bits
  never have the same CRC, and 33 bits is already too many.
 */
module CrcErrorDetection {
  import opened Crc32
  import opened CrcUpdate

  // ---------------------------------------------------------------------------------------
  // Two runs side by side
  // ---------------------------------------------------------------------------------------

  lemma BitStepInjective(a: bv32, b: bv32, bit: bool)
    requires BitStep(a, bit) == BitStep(b, bit)
    ensures a == b
  {
    if bit {
      ShiftInjective(a ^ 1, b ^ 1);
    } else {
      ShiftInjective(a, b);
    }
  }

  /** Different states stay different whatever common bits follow. */
  lemma {:induction false} DifferenceSurvives(a: bv32, b: bv32, bits: seq<bool>)
    requires a != b
    ensures RunBits(a, bits) != RunBits(b, bits)
    decreases bits
  {
    if bits != [] {
      if BitStep(a, bits[0]) == BitStep(b, bits[0]) {
        BitStepInjective(a, b, bits[0]);
      }
      DifferenceSurvives(BitStep(a, bits[0]), BitStep(b, bits[0]), bits[1..]);
    }
  }

  /** A bit on which the two messages differ drives the states at least 2^31 apart. */
  lemma Split(c: bv32, a: bv32, b: bv32)
    requires a == Shift(c ^ 1) && b == Shift(c)
    ensures a ^ b >= 0x8000_0000
  {
    ShiftLinear(c, 1);
    assert Shift(1) == 0xEDB8_8320;
    XorCancels(Shift(c), Shift(1));
  }

  lemma XorCancels(x: bv32, y: bv32)
    ensures (x ^ y) ^ x == y && x ^ (x ^ y) == y
  {
  }

  /** t can be halved n times without losing a bit. */
  predicate Halves(t: bv32, n: nat)
    decreases n
  {
    t != 0 && (n > 0 ==> t & 1 == 0 && Halves(t >> 1, n - 1))
  }

  lemma HalvesFour(t: bv32, u: bv32, n: nat)
    requires u == t >> 4 && t & 0xF == 0 && Halves(u, n)
    ensures Halves(t, n + 4)
  {
    assert ((t >> 1) >> 1) >> 1 == t >> 3 && (t >> 3) >> 1 == u;
    assert Halves(t >> 3, n + 1);
    assert Halves((t >> 1) >> 1, n + 2);
  }

  lemma HighestBitHalves(t: bv32, n: nat)
    requires t == 0x8000_0000 && n == 31
    ensures Halves(t, n)
  {
    assert Halves(0x8, 3);
    HalvesFour(0x80, 0x8, 3);
    HalvesFour(0x800, 0x80, 7);
    HalvesFour(0x8000, 0x800, 11);
    HalvesFour(0x8_0000, 0x8000, 15);
    HalvesFour(0x80_0000, 0x8_0000, 19);
    HalvesFour(0x800_0000, 0x80_0000, 23);
    HalvesFour(0x8000_0000, 0x800_0000, 27);
  }

  lemma FlipLowest(d: bv32, e: bv32, t: bv32)
    requires d >= t && t & 1 == 0 && e <= 1
    ensures d ^ e >= t
  {
  }

  /** The register at most halves: a difference of t or more is t / 2 or more after a step. */
  lemma AtMostHalves(d: bv32, t: bv32)
    requires d >= t
    ensures Shift(d) >= t >> 1
  {
  }

  lemma ShiftApart(x: bv32, y: bv32, d: bv32, t: bv32)
    requires d == x ^ y && d >= t
    ensures Shift(x) ^ Shift(y) >= t >> 1
  {
    ShiftLinear(x, y);
    AtMostHalves(d, t);
  }

  lemma SameFlip(a: bv32, b: bv32, p: bv32)
    ensures (a ^ p) ^ (b ^ p) == a ^ b
  {
  }

  /** Flipping the lowest bit on one side. */
  lemma FlipOne(a: bv32, b: bv32, p: bv32, t: bv32)
    requires a ^ b >= t && t & 1 == 0 && p == 1
    ensures (a ^ p) ^ (b ^ 0) >= t && (b ^ 0) ^ (a ^ p) >= t
  {
    assert (a ^ 1) ^ (b ^ 0) == (a ^ b) ^ 1;
    FlipLowest(a ^ b, 1, t);
  }

  lemma InputsApart(a: bv32, b: bv32, p: bv32, q: bv32, t: bv32)
    requires a ^ b >= t && t & 1 == 0 && p <= 1 && q <= 1
    ensures (a ^ p) ^ (b ^ q) >= t
  {
    if p == q {
      SameFlip(a, b, p);
    } else if p == 0 {
      FlipOne(b, a, q, t);
    } else {
      FlipOne(a, b, p, t);
    }
  }

  lemma BitStepAdds(a: bv32, x: bool, u: bv32) returns (p: bv32, ap: bv32)
    requires u == BitStep(a, x)
    ensures p <= 1 && ap == a ^ p && u == Shift(ap)
  {
    p := if x then 1 else 0;
    ap := a ^ p;
  }

  lemma OutputsApart(a: bv32, b: bv32, p: bv32, q: bv32, ap: bv32, bq: bv32, t: bv32)
    requires a ^ b >= t && t & 1 == 0 && p <= 1 && q <= 1
    requires ap == a ^ p && bq == b ^ q
    ensures Shift(ap) ^ Shift(bq) >= t >> 1
  {
    InputsApart(a, b, p, q, t);
    ShiftApart(ap, bq, ap ^ bq, t);
  }

  lemma Apart(a: bv32, b: bv32, p: bv32, q: bv32, ap: bv32, bq: bv32, t: bv32, u: bv32, v: bv32)
    requires a ^ b >= t && t & 1 == 0 && p <= 1 && q <= 1
    requires ap == a ^ p && bq == b ^ q
    requires u == Shift(ap) && v == Shift(bq)
    ensures u ^ v >= t >> 1
  {
    OutputsApart(a, b, p, q, ap, bq, t);
  }

  lemma NonZeroXor(a: bv32, b: bv32, t: bv32)
    requires t != 0 && a ^ b >= t
    ensures a != b
  {
  }

  /** Once apart, the states stay apart through any further 31 bits, even different ones. */
  lemma {:induction false} StillApart(a: bv32, b: bv32, x: seq<bool>, y: seq<bool>, t: bv32, n: nat)
    requires |x| == |y| <= n
    requires a ^ b >= t && Halves(t, n)
    ensures RunBits(a, x) != RunBits(b, y)
    decreases x
  {
    if x == [] {
      NonZeroXor(a, b, t);
    } else {
      var u, v := BitStep(a, x[0]), BitStep(b, y[0]);
      var p, ap := BitStepAdds(a, x[0], u);
      var q, bq := BitStepAdds(b, y[0], v);
      Apart(a, b, p, q, ap, bq, t, u, v);
      StillApart(u, v, x[1..], y[1..], t >> 1, n - 1);
    }
  }

  /** From one state, two different strings of at most 32 bits lead to different states. */
  lemma {:induction false} ShortStringsDiffer(c: bv32, x: seq<bool>, y: seq<bool>)
    requires |x| == |y| <= 32 && x != y
    ensures RunBits(c, x) != RunBits(c, y)
    decreases x
  {
    if x[0] == y[0] {
      ShortStringsDiffer(BitStep(c, x[0]), x[1..], y[1..]);
    } else {
      HighestBitHalves(0x8000_0000, 31);
      var a, b := Shift(c ^ 1), Shift(c);
      Split(c, a, b);
      if x[0] {
        StillApart(a, b, x[1..], y[1..], 0x8000_0000, 31);
      } else {
        StillApart(a, b, y[1..], x[1..], 0x8000_0000, 31);
      }
    }
  }

  /** The theorem on bits. */
  lemma BurstDetected(c: bv32, u: seq<bool>, v: seq<bool>, i: nat, j: nat)
    requires |u| == |v| && i <= j <= |u| && j <= i + 32
    requires u[..i] == v[..i] && u[j..] == v[j..] && u != v
    ensures RunBits(c, u) != RunBits(c, v)
  {
    var state := RunBits(c, u[..i]);
    assert u == u[..i] + (u[i..j] + u[j..]) && v == v[..i] + (v[i..j] + v[j..]);
    RunBitsConcat(c, u[..i], u[i..j] + u[j..]);
    RunBitsConcat(c, v[..i], v[i..j] + v[j..]);
    RunBitsConcat(state, u[i..j], u[j..]);
    RunBitsConcat(state, v[i..j], v[j..]);
    ShortStringsDiffer(state, u[i..j], v[i..j]);
    DifferenceSurvives(RunBits(state, u[i..j]), RunBits(state, v[i..j]), u[j..]);
  }

  lemma {:induction false} ZeroStaysZero(x: bv32, n: nat)
    requires x == 0
    ensures ShiftN(x, n) == 0
    decreases n
  {
    if n > 0 {
      ZeroStaysZero(Shift(x), n - 1);
    }
  }

  lemma NothingLeft(w: bv32, n: nat)
    requires n == 32
    ensures ShiftedRight(w, n) == 0
  {
    ShiftedRight8(w, 8);
    var w16, w24 := (w >> 8) >> 8, ((w >> 8) >> 8) >> 8;
    Move(w, w >> 8, 24);
    Move(w >> 8, w16, 16);
    Move(w16, w24, 8);
    ShiftedRight8(w24, 8);
    assert w24 >> 8 == 0;
  }

  lemma Move(w: bv32, u: bv32, n: nat)
    requires u == w >> 8
    ensures ShiftedRight(w, n + 8) == ShiftedRight(u, n)
  {
    ShiftedRightPlus4(w, n + 4);
    ShiftedRightPlus4(w >> 4, n);
    assert (w >> 4) >> 4 == u;
  }

  /** Feeding a register its own contents empties it. */
  lemma SelfCancels(c: bv32, n: nat)
    requires n == 32
    ensures RunBits(c, LowBits(c, n)) == 0
  {
    AbsorbWord(c, c, c ^ c, n);
    ZeroStaysZero(c ^ c, n);
    NothingLeft(c, n);
  }

  lemma Cancelling(c: bv32, bit: bool, n: nat) returns (x: seq<bool>)
    requires n == 32
    ensures |x| == n + 1 && x[0] == bit && RunBits(c, x) == 0
  {
    var next := BitStep(c, bit);
    x := [bit] + LowBits(next, n);
    assert x[1..] == LowBits(next, n);
    SelfCancels(next, n);
  }

  /** The bound of 32 is sharp: from every register two strings of 33 bits, already different in the first, lead to the
      same register. */
  lemma ThirtyThreeBitsCollide(c: bv32) returns (x: seq<bool>, y: seq<bool>)
    ensures |x| == |y| == 33 && x[0] != y[0] && RunBits(c, x) == RunBits(c, y)
  {
    var n: nat := 32;
    x := Cancelling(c, true, n);
    y := Cancelling(c, false, n);
  }

  // ---------------------------------------------------------------------------------------
  // Messages
  // ---------------------------------------------------------------------------------------

  lemma LowBitsFour(v: bv32, w: bv32, n: nat, v4: bv32, w4: bv32)
    requires LowBits(v, n + 4) == LowBits(w, n + 4)
    requires v4 == v >> 4 && w4 == w >> 4
    ensures v & 0xF == w & 0xF && LowBits(v4, n) == LowBits(w4, n)
  {
    var v1, w1 := LowBitsOne(v, w, n + 3);
    var v2, w2 := LowBitsOne(v1, w1, n + 2);
    var v3, w3 := LowBitsOne(v2, w2, n + 1);
    var _, _ := LowBitsOne(v3, w3, n);
    Nibble(v, w, v1, w1, v2, w2, v3, w3);
    Shift4(v, v1, v2, v3);
    Shift4(w, w1, w2, w3);
  }

  lemma Shift4(v: bv32, v1: bv32, v2: bv32, v3: bv32)
    requires v1 == v >> 1 && v2 == v1 >> 1 && v3 == v2 >> 1
    ensures v3 >> 1 == v >> 4
  {
  }

  lemma Nibble(v: bv32, w: bv32, v1: bv32, w1: bv32, v2: bv32, w2: bv32, v3: bv32, w3: bv32)
    requires v1 == v >> 1 && v2 == v1 >> 1 && v3 == v2 >> 1
    requires w1 == w >> 1 && w2 == w1 >> 1 && w3 == w2 >> 1
    requires v & 1 == w & 1 && v1 & 1 == w1 & 1 && v2 & 1 == w2 & 1 && v3 & 1 == w3 & 1
    ensures v & 0xF == w & 0xF
  {
  }

  lemma LowBitsOne(v: bv32, w: bv32, n: nat) returns (v1: bv32, w1: bv32)
    requires LowBits(v, n + 1) == LowBits(w, n + 1)
    ensures v1 == v >> 1 && w1 == w >> 1
    ensures v & 1 == w & 1 && LowBits(v1, n) == LowBits(w1, n)
  {
    v1, w1 := v >> 1, w >> 1;
    var a, b := LowBits(v, n + 1), LowBits(w, n + 1);
    assert a[0] == b[0] && a[1..] == LowBits(v >> 1, n) && b[1..] == LowBits(w >> 1, n);
  }

  lemma ByteFromNibbles(b: bv8, c: bv8, v: bv32, w: bv32)
    requires v == b as bv32 && w == c as bv32
    requires v & 0xF == w & 0xF && (v >> 4) & 0xF == (w >> 4) & 0xF
    ensures b == c
  {
  }

  /** A byte is known from its bits. */
  lemma ByteFromBits(b: bv8, c: bv8, v: bv32, w: bv32, n: nat)
    requires v == b as bv32 && w == c as bv32
    requires n == 8 && LowBits(v, n) == LowBits(w, n)
    ensures b == c
  {
    LowBitsFour(v, w, 4, v >> 4, w >> 4);
    LowBitsFour(v >> 4, w >> 4, 0, v >> 8, w >> 8);
    ByteFromNibbles(b, c, v, w);
  }

  lemma LastByte(s: seq<bv8>, n: nat, eight: nat)
    requires |s| == n + 1 && eight == 8
    ensures MessageBits(s)[..8 * n] == MessageBits(s[..n])
    ensures MessageBits(s)[8 * n..] == LowBits(s[n] as bv32, eight)
  {
  }

  lemma LastByteSame(s: seq<bv8>, t: seq<bv8>, n: nat, eight: nat)
    requires |s| == |t| == n + 1 && eight == 8
    requires MessageBits(s) == MessageBits(t)
    ensures s[n] == t[n] && MessageBits(s[..n]) == MessageBits(t[..n])
  {
    LastByte(s, n, eight);
    LastByte(t, n, eight);
    ByteFromBits(s[n], t[n], s[n] as bv32, t[n] as bv32, eight);
  }

  /** A message is known from its bits. */
  lemma {:induction false} MessageFromBits(s: seq<bv8>, t: seq<bv8>)
    requires |s| == |t| && MessageBits(s) == MessageBits(t)
    ensures s == t
    decreases |s|
  {
    if s != [] {
      var n := |s| - 1;
      LastByteSame(s, t, n, 8);
      MessageFromBits(s[..n], t[..n]);
      assert s == s[..n] + [s[n]] && t == t[..n] + [t[n]];
    }
  }

  /** The messages agree outside the bits [i, j). */
  ghost predicate AgreeOutside(s: seq<bv8>, t: seq<bv8>, i: nat, j: nat)
    requires i <= j <= 8 * |s| && |s| == |t|
  {
    MessageBits(s)[..i] == MessageBits(t)[..i] && MessageBits(s)[j..] == MessageBits(t)[j..]
  }

  lemma RunsDiffer(c: bv32, s: seq<bv8>, t: seq<bv8>, i: nat, j: nat)
    requires |s| == |t| && i <= j <= 8 * |s| && j <= i + 32
    requires AgreeOutside(s, t, i, j) && s != t
    ensures Run(c, s) != Run(c, t)
  {
    if MessageBits(s) == MessageBits(t) {
      MessageFromBits(s, t);
    }
    BurstDetected(c, MessageBits(s), MessageBits(t), i, j);
  }

  lemma InvertedDiffer(x: bv32, y: bv32, p: bv32, q: bv32)
    requires p == Inverted(x) && q == Inverted(y) && x != y
    ensures p != q
  {
    if p == q {
      var back := Inverted(p);
      InvertedTwice(x, p, back);
      InvertedTwice(y, q, back);
    }
  }

  /** Among messages of one length that differ at most inside 32 consecutive bits, the CRC tells which
      one it is. */
  lemma BurstTheorem(seed: bv32, s: seq<bv8>, t: seq<bv8>, i: nat, j: nat, p: bv32, q: bv32)
    requires |s| == |t| && i <= j <= 8 * |s| && j <= i + 32 && AgreeOutside(s, t, i, j)
    requires p == Crc(seed, s) && q == Crc(seed, t)
    ensures p == q <==> s == t
  {
    if s != t {
      var start, x := Register(seed, s, p);
      var _, y := Register(seed, t, q);
      RunsDiffer(start, s, t, i, j);
      InvertedDiffer(x, y, p, q);
    }
  }

  lemma WindowBits(s: seq<bv8>, t: seq<bv8>, at: nat, end: nat)
    requires |s| == |t| && at <= end <= |s|
    requires s[..at] == t[..at] && s[end..] == t[end..]
    ensures AgreeOutside(s, t, 8 * at, 8 * end)
  {
    assert s == s[..end] + s[end..] && t == t[..end] + t[end..];
    MessageBitsConcat(s[..end], s[end..]);
    MessageBitsConcat(t[..end], t[end..]);
    assert s == s[..at] + s[at..] && t == t[..at] + t[at..];
    MessageBitsConcat(s[..at], s[at..]);
    MessageBitsConcat(t[..at], t[at..]);
  }

  /** Four consecutive bytes of a message, overwritten in any way, never go unnoticed. */
  lemma FourByteWindow(seed: bv32, s: seq<bv8>, t: seq<bv8>, at: nat, end: nat, p: bv32, q: bv32)
    requires |s| == |t| && at <= end <= |s| && end <= at + 4
    requires s[..at] == t[..at] && s[end..] == t[end..]
    requires p == Crc(seed, s) && q == Crc(seed, t)
    ensures p == q <==> s == t
  {
    WindowBits(s, t, at, end);
    BurstTheorem(seed, s, t, 8 * at, 8 * end, p, q);
  }

  /** Where the length is cut to 32 bits on its way to zlib (no wide kernels), messages of 2^32 bytes or
      more that differ in their last four bytes have different CRCs and yet the same computed value. */
  lemma LongInputsLoseBytes(seed: bv32, s: seq<bv8>, t: seq<bv8>, n: nat, p: bv32, q: bv32)
    requires |s| == |t| == n >= 0x1_0000_0000
    requires s[..n - 4] == t[..n - 4] && s != t
    requires p == Crc(seed, s) && q == Crc(seed, t)
    ensures p != q
    ensures s[..n % 0x1_0000_0000] == t[..n % 0x1_0000_0000]
  {
    assert s[n..] == t[n..];
    FourByteWindow(seed, s, t, n - 4, n, p, q);
    assert n % 0x1_0000_0000 <= n - 4;
    assert s[..n % 0x1_0000_0000] == s[..n - 4][..n % 0x1_0000_0000];
  }

  /** Passing on the length modulo 2^32 makes no difference for these data. */
  ghost predicate CutIsRight(seed: bv32, data: seq<bv8>) {
    Crc(seed, data[..|data| % 0x1_0000_0000]) == Crc(seed, data)
  }

  lemma OneIsWrong(seed: bv32, s: seq<bv8>, t: seq<bv8>, n: nat)
    requires |s| == |t| == n >= 0x1_0000_0000 && s[..n - 4] == t[..n - 4] && s != t
    ensures !CutIsRight(seed, s) || !CutIsRight(seed, t)
  {
    LongInputsLoseBytes(seed, s, t, n, Crc(seed, s), Crc(seed, t));
  }

  lemma LastByteDiffers(n: nat) returns (s: seq<bv8>, t: seq<bv8>)
    requires n >= 4
    ensures |s| == |t| == n && s[..n - 4] == t[..n - 4] && s != t
  {
    s, t := seq(n, _ => 0), seq(n, i => if i == n - 1 then 1 else 0);
    assert s[n - 1] != t[n - 1];
  }

  /** The path without wide kernels is right for all data of a length exactly if the length fits 32 bits. */
  lemma CutIsRightExactly(seed: bv32, n: nat)
    ensures n < 0x1_0000_0000 <==> forall data: seq<bv8> :: |data| == n ==> CutIsRight(seed, data)
  {
    if n < 0x1_0000_0000 {
      forall data: seq<bv8> | |data| == n ensures CutIsRight(seed, data) {
        assert data[..|data| % 0x1_0000_0000] == data;
      }
    } else {
      var s, t := LastByteDiffers(n);
      OneIsWrong(seed, s, t, n);
    }
  }
}
