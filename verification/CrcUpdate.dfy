/**
  Whole messages: the byte loop, the choice between kernels, and the streaming law. The specification
  feeds the message to the shift register bit by bit, lowest bit of each byte first, and never mentions
  the table.
 */
module CrcUpdate {
  import opened Bytes
  import opened Crc32

  /** The bits of a message in the order the register sees them. */
  function MessageBits(s: seq<bv8>): (bits: seq<bool>)
    ensures |bits| == 8 * |s|
  {
    if s == [] then [] else MessageBits(s[..|s| - 1]) + LowBits(s[|s| - 1] as bv32, 8)
  }

  function Run(c: bv32, s: seq<bv8>): bv32 {
    RunBits(c, MessageBits(s))
  }

  function Inverted(x: bv32): bv32 {
    !x
  }

  /** The CRC of a message in the zlib convention: inverted going in and coming out. */
  function Crc(seed: bv32, data: seq<bv8>): bv32 {
    Inverted(Run(Inverted(seed), data))
  }

  lemma {:induction false} RunBitsConcat(c: bv32, a: seq<bool>, b: seq<bool>)
    ensures RunBits(c, a + b) == RunBits(RunBits(c, a), b)
    decreases a
  {
    if a == [] {
      assert a + b == b;
    } else {
      RunBitsConcat(BitStep(c, a[0]), a[1..], b);
      assert (a + b)[1..] == a[1..] + b;
    }
  }

  lemma {:induction false} MessageBitsConcat(a: seq<bv8>, b: seq<bv8>)
    ensures MessageBits(a + b) == MessageBits(a) + MessageBits(b)
    decreases |b|
  {
    if b == [] {
      assert a + b == a;
    } else {
      var n := |b| - 1;
      assert (a + b)[..|a + b| - 1] == a + b[..n];
      MessageBitsConcat(a, b[..n]);
    }
  }

  lemma RunConcat(c: bv32, a: seq<bv8>, b: seq<bv8>)
    ensures Run(c, a + b) == Run(Run(c, a), b)
  {
    MessageBitsConcat(a, b);
    RunBitsConcat(c, MessageBits(a), MessageBits(b));
  }

  lemma RunOneMore(c: bv32, s: seq<bv8>, p: nat, w: bv32, n: nat)
    requires p < |s|
    requires w == s[p] as bv32 && n == 8
    ensures Run(c, s[..p + 1]) == RunBits(Run(c, s[..p]), LowBits(w, n))
  {
    var t := s[..p + 1];
    assert t[..p] == s[..p];
    RunBitsConcat(c, MessageBits(s[..p]), LowBits(w, n));
  }

  method Absorb(c: bv32, buf: seq<bv8>, p: nat, ghost start: bv32) returns (r: bv32)
    requires p < |buf| && c == Run(start, buf[..p])
    ensures r == Run(start, buf[..p + 1])
  {
    ghost var w := buf[p] as bv32;
    RunOneMore(start, buf, p, w, 8);
    r := UpdateByte(c, buf[p], w, 8);
  }

  /** crc32_bytewise: eight bytes a turn, then the rest. */
  method Bytewise(crcInternal: bv32, buf: seq<bv8>) returns (c: bv32)
    ensures c == Run(crcInternal, buf)
  {
    c := crcInternal;
    var p: nat, len: nat := 0, |buf|;
    while len >= 8
      invariant p + len == |buf|
      invariant c == Run(crcInternal, buf[..p])
    {
      c := Absorb(c, buf, p, crcInternal);
      c := Absorb(c, buf, p + 1, crcInternal);
      c := Absorb(c, buf, p + 2, crcInternal);
      c := Absorb(c, buf, p + 3, crcInternal);
      c := Absorb(c, buf, p + 4, crcInternal);
      c := Absorb(c, buf, p + 5, crcInternal);
      c := Absorb(c, buf, p + 6, crcInternal);
      c := Absorb(c, buf, p + 7, crcInternal);
      p, len := p + 8, len - 8;
    }
    for i := 0 to len
      invariant c == Run(crcInternal, buf[..p + i])
    {
      c := Absorb(c, buf, p + i, crcInternal);
    }
    assert buf[..p + len] == buf;
  }

  /** What crc32_pclmul promises. The carry-less folding itself is not part of this model; the byte loop
      stands in for it. */
  method WideKernel(crcInternal: bv32, buf: seq<bv8>) returns (c: bv32)
    requires |buf| >= 64 && |buf| % 16 == 0
    ensures c == Run(crcInternal, buf)
  {
    c := Bytewise(crcInternal, buf);
  }

  /** What crc32_pclmul_small promises on a whole number of 16-byte blocks. */
  method SmallKernel(crcInternal: bv32, buf: seq<bv8>, blocks: nat) returns (c: bv32)
    requires 1 <= blocks && 16 * blocks <= |buf|
    ensures c == Run(crcInternal, buf[..16 * blocks])
  {
    c := Bytewise(crcInternal, buf[..16 * blocks]);
  }

  /** What zlib's crc32 promises. Its length argument is a 32-bit unsigned integer. */
  method Zlib(seed: bv32, buf: seq<bv8>, len: uint32) returns (c: bv32)
    requires len as int <= |buf|
    ensures c == Crc(seed, buf[..len])
  {
    var state := Bytewise(Inverted(seed), buf[..len]);
    c := Inverted(state);
  }

  /** From here on the state is that of the bytes before p. */
  lemma Resume(start: bv32, data: seq<bv8>, p: nat, c: bv32, q: nat)
    requires p <= q <= |data| && c == Run(start, data[..p])
    ensures Run(c, data[p..q]) == Run(start, data[..q])
  {
    assert data[..q] == data[..p] + data[p..q];
    RunConcat(start, data[..p], data[p..q]);
  }

  /** A run of whole blocks handed to a kernel from position p. */
  method Blocks(c: bv32, data: seq<bv8>, p: nat, body: nat, ghost start: bv32) returns (r: bv32)
    requires p + body <= |data| && body % 16 == 0 && body >= 16
    requires c == Run(start, data[..p])
    ensures r == Run(start, data[..p + body])
  {
    Resume(start, data, p, c, p + body);
    if body >= 64 {
      r := WideKernel(c, data[p..p + body]);
    } else {
      assert data[p..][..16 * (body / 16)] == data[p..p + body];
      r := SmallKernel(c, data[p..], body / 16);
    }
  }

  /** The bytes that no kernel took. */
  method Tail(c: bv32, data: seq<bv8>, p: nat, ghost start: bv32) returns (r: bv32)
    requires p <= |data| && c == Run(start, data[..p])
    ensures r == Run(start, data)
  {
    assert data[..|data|] == data;
    r := c;
    if p < |data| {
      Resume(start, data, p, c, |data|);
      assert data[p..|data|] == data[p..];
      r := Bytewise(c, data[p..]);
    }
  }

  /** The path taken when the processor has the wide kernels. */
  method Split(start: bv32, data: seq<bv8>, addr: nat) returns (c: bv32)
    requires |data| >= 16
    ensures c == Run(start, data)
  {
    c := start;
    var p, len := 0, |data|;
    assert data[..0] == [];
    if len < 64 {
      var blocks := len / 16;
      c := SmallKernel(c, data, blocks);
      c := Tail(c, data, 16 * blocks, start);
      return;
    }
    var misalign := (16 - addr % 16) % 16;
    if misalign != 0 {
      var take := if misalign < len then misalign else len;
      c := Bytewise(c, data[..take]);
      p, len := take, len - take;
    }
    c := Blocks(c, data, p, len - len % 16, start);
    c := Tail(c, data, p + (len - len % 16), start);
  }

  /** crc32_update: addr is where the data lies in memory, pclmul whether the processor has the wide
      kernels. Without them the length is handed to zlib as a 32-bit integer, so the bytes covered are
      the length modulo 2^32. */
  method Update(seed: bv32, data: seq<bv8>, addr: nat, pclmul: bool) returns (r: bv32)
    ensures r == Crc(seed, if pclmul then data else data[..|data| % 0x1_0000_0000])
  {
    if |data| == 0 {
      assert data[..|data| % 0x1_0000_0000] == [];
      assert MessageBits(data) == [];
      return seed;
    }
    if |data| < 16 {
      r := Zlib(seed, data, |data|);
      assert data[..|data| % 0x1_0000_0000] == data[..|data|] == data;
      return;
    }
    if pclmul {
      var c := Split(Inverted(seed), data, addr);
      return Inverted(c);
    }
    r := Zlib(seed, data, Wrap32(|data|));
  }

  /** The register behind a CRC value. */
  lemma Register(seed: bv32, data: seq<bv8>, crc: bv32) returns (start: bv32, state: bv32)
    requires crc == Crc(seed, data)
    ensures start == Inverted(seed) && state == Run(start, data) && crc == Inverted(state)
  {
    start := Inverted(seed);
    state := Run(start, data);
  }

  lemma InvertedTwice(x: bv32, y: bv32, z: bv32)
    requires y == Inverted(x) && z == Inverted(y)
    ensures z == x
  {
  }

  /** The registers of the two parts and of the whole. */
  lemma RunParts(start: bv32, middle: bv32, again: bv32, end: bv32, last: bv32, a: seq<bv8>, b: seq<bv8>, ab: seq<bv8>)
    requires ab == a + b && middle == Run(start, a) && again == middle && end == Run(again, b) && last == Run(start, ab)
    ensures last == end
  {
    RunConcat(start, a, b);
  }

  /** The values at the registers. */
  lemma ValuesOfParts(start: bv32, middle: bv32, first: bv32, again: bv32, end: bv32, second: bv32, last: bv32,
                      whole: bv32,
                      a: seq<bv8>, b: seq<bv8>, ab: seq<bv8>)
    requires first == Inverted(middle) && again == Inverted(first) && second == Inverted(end) && whole == Inverted(last)
    requires ab == a + b && middle == Run(start, a) && end == Run(again, b) && last == Run(start, ab)
    ensures second == whole
  {
    InvertedTwice(middle, first, again);
    RunParts(start, middle, again, end, last, a, b, ab);
  }

  /** Streaming: feeding a message in two parts is feeding it whole. */
  lemma Streaming(seed: bv32, a: seq<bv8>, b: seq<bv8>, ab: seq<bv8>, first: bv32, second: bv32, whole: bv32)
    requires ab == a + b && first == Crc(seed, a) && second == Crc(first, b) && whole == Crc(seed, ab)
    ensures second == whole
  {
    var start, middle := Register(seed, a, first);
    var again, end := Register(first, b, second);
    var anew, last := Register(seed, ab, whole);
    ValuesOfParts(start, middle, first, again, end, second, last, whole, a, b, ab);
  }
}
