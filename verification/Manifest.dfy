/**
  index.manifest (include/bitcask/index_manifest.hpp): which checkpoint of every component counts. Eighty
  bytes: magic number, version, count, three entries, a checksum of all that, and the magic number again.
  The checksum is any function of the bytes; the store uses CRC-32.
 */
module Manifests {
  import opened Bytes
  import opened LittleEndian

  type Checksum = seq<byte> -> uint32

  const MAGIC: seq<byte> := [0x42, 0x43, 0x4D, 0x46]
  const VERSION: uint32 := 1
  const COMPONENTS: uint32 := 3
  const SIZE: nat := 80

  /** The committed chain of one component: the watermark of its base, how many deltas, and how far they reach. */
  datatype Entry = Entry(baseWatermark: uint64, chainSeq: uint32, chainWatermark: uint64)

  type Manifest = m: seq<Entry> | |m| == 3 witness [Entry(0, 0, 0), Entry(0, 0, 0), Entry(0, 0, 0)]

  function EntryBytes(e: Entry): (s: seq<byte>)
    ensures |s| == 20
  {
    Put64(e.baseWatermark) + Put32(e.chainSeq) + Put64(e.chainWatermark)
  }

  function Body(entries: seq<Entry>): (s: seq<byte>)
    ensures |s| == 20 * |entries|
  {
    if entries == [] then [] else Body(entries[..|entries| - 1]) + EntryBytes(entries[|entries| - 1])
  }

  const HEAD: seq<byte> := MAGIC + Put32(VERSION) + Put32(COMPONENTS)

  function Covered(m: Manifest): (s: seq<byte>)
    ensures |s| == 72
  {
    HEAD + Body(m)
  }

  /** The file. */
  function Image(m: Manifest, sum: Checksum): (s: seq<byte>)
    ensures |s| == SIZE
  {
    Covered(m) + Put32(sum(Covered(m))) + MAGIC
  }

  lemma Grows(buf: seq<byte>, head: seq<byte>, body: seq<byte>, a: seq<byte>, b: seq<byte>, c: seq<byte>)
    requires buf == head + body
    ensures buf + a + b + c == head + (body + (a + b + c))
  {
  }

  method Serialize(m: Manifest, sum: Checksum) returns (buf: seq<byte>)
    ensures buf == Image(m, sum)
  {
    buf := MAGIC;
    buf := buf + Put32(VERSION);
    buf := buf + Put32(COMPONENTS);
    for i := 0 to |m|
      invariant buf == HEAD + Body(m[..i])
    {
      assert m[..i + 1][..i] == m[..i];
      Grows(buf, HEAD, Body(m[..i]), Put64(m[i].baseWatermark), Put32(m[i].chainSeq), Put64(m[i].chainWatermark));
      buf := buf + Put64(m[i].baseWatermark);
      buf := buf + Put32(m[i].chainSeq);
      buf := buf + Put64(m[i].chainWatermark);
    }
    assert m[..3] == m;
    var crc := sum(buf);
    buf := buf + Put32(crc);
    buf := buf + MAGIC;
  }

  // ---------------------------------------------------------------------------------------
  // Reading
  // ---------------------------------------------------------------------------------------

  function EntryAt(raw: seq<byte>, at: nat): Entry
    requires at + 20 <= |raw|
  {
    Entry(Get64(raw, at), Get32(raw, at + 8), Get64(raw, at + 12))
  }

  /** A number that was read is written back as the bytes it was read from. */
  lemma PutBack32(raw: seq<byte>, at: nat, v: uint32)
    requires at + 4 <= |raw| && Get32(raw, at) == v
    ensures raw[at..at + 4] == Put32(v)
  {
    PutGet(raw[at..at + 4]);
  }

  lemma PutBack64(raw: seq<byte>, at: nat, v: uint64)
    requires at + 8 <= |raw| && Get64(raw, at) == v
    ensures raw[at..at + 8] == Put64(v)
  {
    PutGet(raw[at..at + 8]);
  }

  lemma CutInThree(raw: seq<byte>, i: nat, j: nat, k: nat, l: nat)
    requires i <= j <= k <= l <= |raw|
    ensures raw[i..l] == raw[i..j] + raw[j..k] + raw[k..l]
  {
  }

  lemma EntryOfBytes(raw: seq<byte>, at: nat)
    requires at + 20 <= |raw|
    ensures EntryBytes(EntryAt(raw, at)) == raw[at..at + 20]
  {
    var e := EntryAt(raw, at);
    PutBack64(raw, at, e.baseWatermark);
    PutBack32(raw, at + 8, e.chainSeq);
    PutBack64(raw, at + 12, e.chainWatermark);
    CutInThree(raw, at, at + 8, at + 12, at + 20);
  }

  lemma SameParts(x: seq<byte>, y: seq<byte>, z: seq<byte>, a: seq<byte>, b: seq<byte>, c: seq<byte>)
    requires |x| == |a| && |y| == |b| && |z| == |c| && x + y + z == a + b + c
    ensures x == a && y == b && z == c
  {
    var n, m := |a|, |a| + |b|;
    assert x == (x + y + z)[..n] && y == (x + y + z)[n..m] && z == (x + y + z)[m..];
    assert a == (a + b + c)[..n] && b == (a + b + c)[n..m] && c == (a + b + c)[m..];
  }

  lemma Placed(raw: seq<byte>, at: nat, a: seq<byte>, b: seq<byte>, c: seq<byte>)
    requires |a| == 8 && |b| == 4 && |c| == 8 && at + 20 <= |raw| && raw[at..at + 20] == a + b + c
    ensures raw[at..at + 8] == a && raw[at + 8..at + 12] == b && raw[at + 12..at + 20] == c
  {
    CutInThree(raw, at, at + 8, at + 12, at + 20);
    SameParts(raw[at..at + 8], raw[at + 8..at + 12], raw[at + 12..at + 20], a, b, c);
  }

  lemma BytesOfEntry(raw: seq<byte>, at: nat, e: Entry)
    requires at + 20 <= |raw| && raw[at..at + 20] == EntryBytes(e)
    ensures EntryAt(raw, at) == e
  {
    Placed(raw, at, Put64(e.baseWatermark), Put32(e.chainSeq), Put64(e.chainWatermark));
    GetPut64(e.baseWatermark, raw, at);
    GetPut32(e.chainSeq, raw, at + 8);
    GetPut64(e.chainWatermark, raw, at + 12);
  }

  lemma BodyIsThree(m: Manifest)
    ensures Body(m) == EntryBytes(m[0]) + EntryBytes(m[1]) + EntryBytes(m[2])
  {
    var one, two := [m[0]], [m[0], m[1]];
    assert one[..0] == [] && two[..1] == one && m[..2] == two;
    assert Body(one) == Body(one[..0]) + EntryBytes(m[0]);
    assert Body(two) == Body(two[..1]) + EntryBytes(m[1]);
    assert Body(m) == Body(m[..2]) + EntryBytes(m[2]);
  }

  /** What a reader looks at. */
  predicate Frame(raw: seq<byte>, sum: Checksum) {
    && |raw| == SIZE
    && raw[..4] == MAGIC
    && Get32(raw, 4) == VERSION
    && Get32(raw, 8) == COMPONENTS
    && Get32(raw, 72) == sum(raw[..72])
    && raw[76..] == MAGIC
  }

  function Read(raw: seq<byte>): Manifest
    requires |raw| == SIZE
  {
    [EntryAt(raw, 12), EntryAt(raw, 32), EntryAt(raw, 52)]
  }

  lemma Assembled(raw: seq<byte>, magic: seq<byte>, version: seq<byte>, count: seq<byte>, body: seq<byte>,
                  crc: seq<byte>)
    requires |magic| == |version| == |count| == |crc| == 4 && |body| == 60
    requires raw == ((magic + version + count) + body) + crc + magic
    ensures raw[..4] == magic && raw[4..8] == version && raw[8..12] == count
    ensures raw[..72] == magic + version + count + body && raw[72..76] == crc && raw[76..] == magic
  {
  }

  lemma ImageIsFramed(m: Manifest, sum: Checksum)
    ensures Frame(Image(m, sum), sum)
  {
    var raw := Image(m, sum);
    Assembled(raw, MAGIC, Put32(VERSION), Put32(COMPONENTS), Body(m), Put32(sum(Covered(m))));
    GetPut32(VERSION, raw, 4);
    GetPut32(COMPONENTS, raw, 8);
    GetPut32(sum(Covered(m)), raw, 72);
  }

  lemma ThreeParts(head: seq<byte>, a: seq<byte>, b: seq<byte>, c: seq<byte>, tail: seq<byte>, raw: seq<byte>)
    requires |head| == 12 && |a| == |b| == |c| == 20 && |tail| == 8
    requires raw == head + (a + b + c) + tail
    ensures |raw| == SIZE && raw[12..32] == a && raw[32..52] == b && raw[52..72] == c
  {
  }

  lemma ReadImage(m: Manifest, sum: Checksum)
    ensures Read(Image(m, sum)) == m
  {
    var raw := Image(m, sum);
    BodyIsThree(m);
    var tail := Put32(sum(Covered(m))) + MAGIC;
    assert raw == HEAD + (EntryBytes(m[0]) + EntryBytes(m[1]) + EntryBytes(m[2])) + tail;
    ThreeParts(HEAD, EntryBytes(m[0]), EntryBytes(m[1]), EntryBytes(m[2]), tail, raw);
    BytesOfEntry(raw, 12, m[0]);
    BytesOfEntry(raw, 32, m[1]);
    BytesOfEntry(raw, 52, m[2]);
  }

  /** Which bytes hold what. */
  lemma Layout(m: Manifest, sum: Checksum, raw: seq<byte>, i: nat)
    requires raw == Image(m, sum) && i < 3
    ensures |raw| == 80 && raw[..4] == raw[76..] == [0x42, 0x43, 0x4D, 0x46]
    ensures Get32(raw, 4) == 1 && Get32(raw, 8) == 3 && Get32(raw, 72) == sum(raw[..72])
    ensures Get64(raw, 12 + 20 * i) == m[i].baseWatermark && Get32(raw, 20 + 20 * i) == m[i].chainSeq
    ensures Get64(raw, 24 + 20 * i) == m[i].chainWatermark
  {
    ImageIsFramed(m, sum);
    ReadImage(m, sum);
    assert Read(raw)[i] == EntryAt(raw, 12 + 20 * i);
  }

  lemma BodyRead(raw: seq<byte>)
    requires |raw| == SIZE
    ensures Body(Read(raw)) == raw[12..72]
  {
    BodyIsThree(Read(raw));
    EntryOfBytes(raw, 12);
    EntryOfBytes(raw, 32);
    EntryOfBytes(raw, 52);
    CutInThree(raw, 12, 32, 52, 72);
  }

  lemma Pieces(raw: seq<byte>, magic: seq<byte>, version: seq<byte>, count: seq<byte>, body: seq<byte>, crc: seq<byte>)
    requires |raw| == SIZE && magic == raw[..4] == raw[76..] && version == raw[4..8] && count == raw[8..12]
    requires body == raw[12..72] && crc == raw[72..76]
    ensures magic + version + count + body == raw[..72]
    ensures raw[..72] + crc + magic == raw
  {
  }

  lemma ImageRead(raw: seq<byte>, sum: Checksum)
    requires Frame(raw, sum)
    ensures Image(Read(raw), sum) == raw
  {
    BodyRead(raw);
    PutBack32(raw, 4, VERSION);
    PutBack32(raw, 8, COMPONENTS);
    PutBack32(raw, 72, sum(raw[..72]));
    Pieces(raw, MAGIC, Put32(VERSION), Put32(COMPONENTS), Body(Read(raw)), Put32(sum(raw[..72])));
  }

  /** A file is read as a manifest exactly if it is what writing that manifest gives. */
  method Deserialize(raw: seq<byte>, sum: Checksum) returns (r: Option<Manifest>)
    ensures forall m: Manifest :: r == Some(m) <==> raw == Image(m, sum)
  {
    ghost var framed := Frame(raw, sum);
    forall m: Manifest ensures raw == Image(m, sum) <==> framed && Read(raw) == m {
      ImageIsFramed(m, sum);
      ReadImage(m, sum);
      if framed {
        ImageRead(raw, sum);
      }
    }
    if |raw| != SIZE || raw[..4] != MAGIC || Get32(raw, 4) != VERSION || Get32(raw, 8) != COMPONENTS {
      return None;
    }
    var stored, actual := Get32(raw, 72), sum(raw[..72]);
    if stored != actual || raw[76..] != MAGIC {
      return None;
    }
    var m: seq<Entry> := [];
    var p := 12;
    for i := 0 to 3
      invariant |m| == i && p == 12 + 20 * i
      invariant forall j :: 0 <= j < i ==> m[j] == EntryAt(raw, 12 + 20 * j)
    {
      m := m + [EntryAt(raw, p)];
      p := p + 20;
    }
    assert m == Read(raw);
    return Some(m);
  }
}
