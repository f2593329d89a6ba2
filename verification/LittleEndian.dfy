/** Fixed-width little-endian integers, as every on-disk format of the store writes them. */
module LittleEndian {
  import opened Bytes

  function Pow256(n: nat): (p: nat)
    ensures p > 0
  {
    if n == 0 then 1 else 256 * Pow256(n - 1)
  }

  /** The n lowest bytes of v, lowest first. */
  function Put(v: nat, n: nat): (s: seq<byte>)
    ensures |s| == n
    decreases n, v
  {
    if n == 0 then [] else [v % 256] + Put(v / 256, n - 1)
  }

  function Get(s: seq<byte>): nat {
    if s == [] then 0 else s[0] as int + 256 * Get(s[1..])
  }

  lemma {:induction false} GetBelow(s: seq<byte>)
    ensures Get(s) < Pow256(|s|)
  {
    if s != [] {
      GetBelow(s[1..]);
    }
  }

  lemma Widths()
    ensures Pow256(2) == 0x1_0000 && Pow256(4) == 0x1_0000_0000 && Pow256(8) == 0x1_0000_0000_0000_0000
  {
    assert Pow256(2) == 256 * Pow256(1);
    assert Pow256(4) == 256 * (256 * Pow256(2));
    assert Pow256(6) == 256 * (256 * Pow256(4));
    assert Pow256(8) == 256 * (256 * Pow256(6));
  }

  lemma {:induction false} GetPut(v: nat, n: nat)
    requires v < Pow256(n)
    ensures Get(Put(v, n)) == v
    decreases n
  {
    if n > 0 {
      assert v / 256 < Pow256(n - 1);
      GetPut(v / 256, n - 1);
      assert Put(v, n)[1..] == Put(v / 256, n - 1);
    }
  }

  lemma {:induction false} PutGet(s: seq<byte>)
    ensures Put(Get(s), |s|) == s
  {
    if s != [] {
      PutGet(s[1..]);
      assert Get(s) / 256 == Get(s[1..]) && Get(s) % 256 == s[0];
      assert s == [s[0]] + s[1..];
    }
  }

  lemma {:induction false} GetSnoc(s: seq<byte>, b: byte)
    ensures Get(s + [b]) == Get(s) + b as int * Pow256(|s|)
    decreases |s|
  {
    if s == [] {
      assert [b][1..] == [];
    } else {
      GetSnoc(s[1..], b);
      assert (s + [b])[1..] == s[1..] + [b];
    }
  }

  function Put16(v: uint16): (s: seq<byte>)
    ensures |s| == 2
  {
    Put(v, 2)
  }

  function Put32(v: uint32): (s: seq<byte>)
    ensures |s| == 4
  {
    Put(v, 4)
  }

  function Put64(v: uint64): (s: seq<byte>)
    ensures |s| == 8
  {
    Put(v, 8)
  }

  function Get16(s: seq<byte>, at: nat): uint16
    requires at + 2 <= |s|
  {
    Widths();
    GetBelow(s[at..at + 2]);
    Get(s[at..at + 2])
  }

  function Get32(s: seq<byte>, at: nat): uint32
    requires at + 4 <= |s|
  {
    Widths();
    GetBelow(s[at..at + 4]);
    Get(s[at..at + 4])
  }

  function Get64(s: seq<byte>, at: nat): uint64
    requires at + 8 <= |s|
  {
    Widths();
    GetBelow(s[at..at + 8]);
    Get(s[at..at + 8])
  }

  lemma GetPut16(v: uint16, s: seq<byte>, at: nat)
    requires at + 2 <= |s| && s[at..at + 2] == Put16(v)
    ensures Get16(s, at) == v
  {
    Widths();
    GetPut(v, 2);
  }

  lemma GetPut32(v: uint32, s: seq<byte>, at: nat)
    requires at + 4 <= |s| && s[at..at + 4] == Put32(v)
    ensures Get32(s, at) == v
  {
    Widths();
    GetPut(v, 4);
  }

  lemma GetPut64(v: uint64, s: seq<byte>, at: nat)
    requires at + 8 <= |s| && s[at..at + 8] == Put64(v)
    ensures Get64(s, at) == v
  {
    Widths();
    GetPut(v, 8);
  }

  /** The byte loop that reads a 64-bit value without assuming the host's byte order. */
  method ReadU64(s: seq<byte>, at: nat) returns (bits: uint64)
    requires at + 8 <= |s|
    ensures bits == Get64(s, at)
  {
    bits := 0;
    Widths();
    for j := 0 to 8
      invariant bits == Get(s[at..at + j])
    {
      GetSnoc(s[at..at + j], s[at + j]);
      assert s[at..at + j + 1] == s[at..at + j] + [s[at + j]];
      GetBelow(s[at..at + j + 1]);
      Monotone(j + 1, 8);
      bits := bits as int + s[at + j] as int * Pow256(j);
    }
  }

  lemma {:induction false} Monotone(m: nat, n: nat)
    requires m <= n
    ensures Pow256(m) <= Pow256(n)
    decreases n
  {
    if m < n {
      Monotone(m, n - 1);
    }
  }
}
