/**
  The C++ side of the metadata codec (include/bitcask/meta_codec.hpp): the encoder writing into space
  reserved beforehand, the full decoder, and the search that compares before it looks at a value.
 */
module MetaCodec {
  import opened Bytes
  import opened ByteOrder
  import LE = LittleEndian
  import VByte
  import opened MetaFormat

  // ---------------------------------------------------------------------------------------
  // Encoder
  // ---------------------------------------------------------------------------------------

  /** What entry_payload_size reserves for an entry: nine bytes for every length. */
  function PayloadSize(e: Entry): nat {
    var keyPart := 9 + |e.key|;
    match e.value
    case Null => keyPart + 1
    case Bool(_) => keyPart + 2
    case Int64(_) => keyPart + 9
    case Float64(_) => keyPart + 9
    case Str(s) => keyPart + 10 + |s|
  }

  /** The reservation is never too small for sizes below 2^63. */
  lemma PayloadFits(e: Entry)
    requires Sized(e)
    ensures |EntryBytes(e)| <= PayloadSize(e)
  {
    VByte.NineBytes(|e.key|);
    if e.value.Str? {
      VByte.NineBytes(|e.value.s|);
    }
  }

  function Reserve(entries: seq<Entry>): nat {
    if entries == [] then 0 else PayloadSize(entries[0]) + Reserve(entries[1..])
  }

  method StoreByte(p: array<byte>, at: nat, b: byte)
    requires at < p.Length
    modifies p
    ensures p[..at + 1] == old(p[..at]) + [b]
  {
    p[at] := b;
  }

  lemma MoveOne(a: seq<byte>, b: byte, c: seq<byte>)
    ensures (a + [b]) + c == a + ([b] + c)
  {
  }

  /** vbyte_store */
  method StoreVByte(p: array<byte>, at: nat, val: nat) returns (off: nat)
    requires at + |VByte.Encoded(val)| <= p.Length
    modifies p
    ensures off == |VByte.Encoded(val)| && p[..at + off] == old(p[..at]) + VByte.Encoded(val)
  {
    off := 0;
    var v := val;
    while v >= 128
      invariant off + |VByte.Encoded(v)| == |VByte.Encoded(val)|
      invariant p[..at + off] + VByte.Encoded(v) == old(p[..at]) + VByte.Encoded(val)
    {
      MoveOne(p[..at + off], v % 128, VByte.Encoded(v / 128));
      StoreByte(p, at + off, v % 128);
      off := off + 1;
      v := v / 128;
    }
    StoreByte(p, at + off, v + 128);
    off := off + 1;
  }

  /** memcpy */
  method Copy(p: array<byte>, at: nat, s: seq<byte>)
    requires at + |s| <= p.Length
    modifies p
    ensures p[..at + |s|] == old(p[..at]) + s
  {
    for i := 0 to |s|
      invariant p[..at] == old(p[..at]) && p[at..at + i] == s[..i]
    {
      p[at + i] := s[i];
    }
    assert p[..at + |s|] == p[..at] + p[at..at + |s|] && s[..|s|] == s;
  }

  /** The eight bytes of a 64-bit pattern, lowest first. */
  method StoreWord(p: array<byte>, at: nat, bits: uint64)
    requires at + 8 <= p.Length
    modifies p
    ensures p[..at + 8] == old(p[..at]) + LE.Put64(bits)
  {
    ghost var word := LE.Put64(bits);
    var rest: nat := bits;
    for i: nat := 0 to 8
      invariant p[..at] == old(p[..at])
      invariant p[at..at + i] + LE.Put(rest, 8 - i) == word
    {
      ghost var before := p[at..at + i];
      p[at + i] := rest % 256;
      assert p[at..at + i + 1] == before + [rest % 256];
      rest := rest / 256;
    }
    assert p[..at + 8] == p[..at] + p[at..at + 8];
  }

  method StoreString(p: array<byte>, at: nat, s: seq<byte>) returns (off: nat)
    requires at + |VByte.Encoded(|s|)| + |s| <= p.Length
    modifies p
    ensures off == |VByte.Encoded(|s|)| + |s| && p[..at + off] == old(p[..at]) + (VByte.Encoded(|s|) + s)
  {
    off := StoreVByte(p, at, |s|);
    if s != [] {
      Copy(p, at + off, s);
      off := off + |s|;
    }
  }

  method StoreTaggedWord(p: array<byte>, at: nat, tag: byte, bits: uint64)
    requires at + 9 <= p.Length
    modifies p
    ensures p[..at + 9] == old(p[..at]) + ([tag] + LE.Put64(bits))
  {
    StoreByte(p, at, tag);
    StoreWord(p, at + 1, bits);
  }

  method StoreText(p: array<byte>, at: nat, s: seq<byte>) returns (off: nat)
    requires at + 1 + |VByte.Encoded(|s|)| + |s| <= p.Length
    modifies p
    ensures off == 1 + |VByte.Encoded(|s|)| + |s|
    ensures p[..at + off] == old(p[..at]) + ([4] + VByte.Encoded(|s|) + s)
  {
    StoreByte(p, at, 4);
    ghost var n := VByte.Encoded(|s|);
    off := StoreString(p, at + 1, s);
    off := off + 1;
    assert ([4] + n) + s == [4] + (n + s);
  }

  method StoreValue(p: array<byte>, at: nat, v: Value) returns (off: nat)
    requires at + |ValueBytes(v)| <= p.Length
    modifies p
    ensures off == |ValueBytes(v)| && p[..at + off] == old(p[..at]) + ValueBytes(v)
  {
    match v
    case Null =>
      StoreByte(p, at, 0);
      off := 1;
    case Bool(b) =>
      StoreByte(p, at, 1);
      StoreByte(p, at + 1, if b then 1 else 0);
      off := 2;
    case Int64(bits) =>
      StoreTaggedWord(p, at, 2, bits);
      off := 9;
    case Float64(bits) =>
      StoreTaggedWord(p, at, 3, bits);
      off := 9;
    case Str(s) =>
      off := StoreText(p, at, s);
  }

  lemma Behind(a: seq<byte>, b: seq<byte>, c: seq<byte>, d: seq<byte>)
    requires d == b + c
    ensures (a + b) + c == a + d && |d| == |b| + |c|
  {
  }

  method StoreEntry(p: array<byte>, at: nat, e: Entry) returns (off: nat)
    requires Sized(e) && at + PayloadSize(e) <= p.Length
    modifies p
    ensures off == |EntryBytes(e)| <= PayloadSize(e) && p[..at + off] == old(p[..at]) + EntryBytes(e)
  {
    ghost var front := p[..at];
    ghost var key, value := VByte.Encoded(|e.key|) + e.key, ValueBytes(e.value);
    PayloadFits(e);
    Behind(front, key, value, EntryBytes(e));
    var keyPart := StoreString(p, at, e.key);
    var valuePart := StoreValue(p, at + keyPart, e.value);
    off := keyPart + valuePart;
  }

  lemma ReserveNext(entries: seq<Entry>, i: nat, e: Entry)
    requires i < |entries| && e == entries[i]
    ensures Reserve(entries[i..]) == PayloadSize(e) + Reserve(entries[i + 1..])
  {
    assert entries[i..][1..] == entries[i + 1..];
  }

  method StoreNext(p: array<byte>, at: nat, off: nat, entries: seq<Entry>, i: nat, ghost front: seq<byte>)
      returns (end: nat)
    requires Encodable(entries) && i < |entries|
    requires off == |Body(entries[..i])| && at + off + Reserve(entries[i..]) <= p.Length
    requires p[..at + off] == front + Body(entries[..i])
    modifies p
    ensures end == |Body(entries[..i + 1])| && at + end + Reserve(entries[i + 1..]) <= p.Length
    ensures p[..at + end] == front + Body(entries[..i + 1])
  {
    var e := entries[i];
    ReserveNext(entries, i, e);
    var n := StoreEntry(p, at + off, e);
    ghost var bytes := EntryBytes(e);
    BodyNext(entries, i, bytes);
    Behind(front, Body(entries[..i]), bytes, Body(entries[..i + 1]));
    end := off + n;
  }

  method StoreEntries(p: array<byte>, at: nat, entries: seq<Entry>) returns (off: nat)
    requires Encodable(entries) && at + Reserve(entries) <= p.Length
    modifies p
    ensures off == |Body(entries)| && at + off <= p.Length && p[..at + off] == old(p[..at]) + Body(entries)
  {
    off := 0;
    assert entries[0..] == entries;
    for i := 0 to |entries|
      invariant off == |Body(entries[..i])| && at + off + Reserve(entries[i..]) <= p.Length
      invariant p[..at + off] == old(p[..at]) + Body(entries[..i])
    {
      off := StoreNext(p, at, off, entries, i, old(p[..at]));
    }
    assert entries[..|entries|] == entries;
  }

  /** The bytes in front of the entries. */
  ghost predicate IsHeader(head: seq<byte>, count: nat) {
    head == [VERSION] + VByte.Encoded(count)
  }

  lemma BlobParts(entries: seq<Entry>, front: seq<byte>, head: seq<byte>)
    requires Encodable(entries) && IsHeader(head, |entries|)
    ensures (front + head) + Body(entries) == front + Blob(entries) && |Blob(entries)| == |head| + |Body(entries)|
  {
    Behind(front, head, Body(entries), Blob(entries));
  }

  method StoreHeader(p: array<byte>, base: nat, count: nat) returns (off: nat, ghost head: seq<byte>)
    requires count < 0x8000_0000_0000_0000 && base + 10 <= p.Length
    modifies p
    ensures IsHeader(head, count) && off == |head| <= 10 && p[..base + off] == old(p[..base]) + head
  {
    head := [VERSION] + VByte.Encoded(count);
    VByte.NineBytes(count);
    StoreByte(p, base, VERSION);
    off := StoreVByte(p, base + 1, count);
    off := off + 1;
  }

  method StoreBlob(p: array<byte>, base: nat, entries: seq<Entry>, ghost front: seq<byte>) returns (off: nat)
    requires Encodable(entries) && base + 10 + Reserve(entries) <= p.Length && p[..base] == front
    modifies p
    ensures off == |Blob(entries)| && base + off <= p.Length && p[..base + off] == front + Blob(entries)
  {
    var first, head := StoreHeader(p, base, |entries|);
    var rest := StoreEntries(p, base + first, entries);
    BlobParts(entries, front, head);
    off := first + rest;
  }

  /** encode_meta: appends the blob to out. All writes stay inside the reservation. */
  method EncodeMeta(out: seq<byte>, entries: seq<Entry>) returns (r: seq<byte>, written: nat)
    requires Encodable(entries)
    ensures r == out + Blob(entries) && written == |Blob(entries)|
  {
    var p := Grown(out, 10 + Reserve(entries));
    written := StoreBlob(p, |out|, entries, out);
    r := p[..|out| + written];
  }

  /** The buffer with room for so many bytes more. */
  method Grown(out: seq<byte>, more: nat) returns (p: array<byte>)
    ensures fresh(p) && p.Length == |out| + more && p[..|out|] == out
  {
    var base := |out|;
    p := new byte[base + more](i requires 0 <= i => if i < base then out[i] else 0);
  }

  // ---------------------------------------------------------------------------------------
  // Decoder
  // ---------------------------------------------------------------------------------------

  method DecodeValue(buf: seq<byte>, at: nat) returns (r: Option<(Value, nat)>)
    requires at <= |buf|
    ensures r == ParseValue(buf, at)
  {
    if at >= |buf| {
      return None;
    }
    var tag, pos := buf[at], at + 1;
    match tag
    case 0 =>
      return Some((Null, pos));
    case 1 =>
      if pos >= |buf| {
        return None;
      }
      return Some((Bool(buf[pos] != 0), pos + 1));
    case 2 =>
      if |buf| - pos < 8 {
        return None;
      }
      var bits := LE.ReadU64(buf, pos);
      return Some((Int64(bits), pos + 8));
    case 3 =>
      if |buf| - pos < 8 {
        return None;
      }
      var bits := LE.ReadU64(buf, pos);
      return Some((Float64(bits), pos + 8));
    case 4 =>
      if pos >= |buf| {
        return None;
      }
      var length := VByte.ReadChecked(buf, pos);
      if length == None {
        return None;
      }
      var (n, p) := length.value;
      if n as int > |buf| - p {
        return None;
      }
      return Some((Str(buf[p..p + n]), p + n));
    case _ =>
      return None;
  }

  method DecodeEntry(buf: seq<byte>, at: nat) returns (r: Option<Parsed>)
    requires at <= |buf|
    ensures r == ParseEntry(buf, at)
  {
    if at >= |buf| {
      return None;
    }
    var length := VByte.ReadChecked(buf, at);
    if length == None {
      return None;
    }
    var (n, p) := length.value;
    if n as int > |buf| - p {
      return None;
    }
    var value := DecodeValue(buf, p + n);
    if value == None {
      return None;
    }
    return Some(Parsed(buf[p..p + n], value.value.0, value.value.1));
  }

  function Prepend(out: seq<Entry>, rest: Option<seq<Entry>>): Option<seq<Entry>> {
    match rest
    case None => None
    case Some(es) => Some(out + es)
  }

  lemma PrependNothing(r: Option<seq<Entry>>)
    ensures Prepend([], r) == r
  {
    if r.Some? {
      assert [] + r.value == r.value;
    }
  }

  lemma DecodeNext(buf: seq<byte>, off: nat, n: nat, p: Parsed, out: seq<Entry>)
    requires n > 0 && ParseEntry(buf, off) == Some(p)
    ensures Prepend(out, DecodeFrom(buf, off, n))
         == Prepend(out + [Entry(p.key, p.value)], DecodeFrom(buf, p.next, n - 1))
  {
    var r := DecodeFrom(buf, p.next, n - 1);
    if r.Some? {
      assert out + ([Entry(p.key, p.value)] + r.value) == (out + [Entry(p.key, p.value)]) + r.value;
    }
  }

  /** The count behind the version byte. */
  method ReadHeader(buf: seq<byte>) returns (r: Option<(uint64, nat)>)
    ensures r == ParseHeader(buf)
  {
    if |buf| < 2 || buf[0] != VERSION {
      return None;
    }
    r := VByte.ReadChecked(buf, 1);
  }

  method DecodeEntries(buf: seq<byte>, start: nat, n: nat) returns (r: Option<seq<Entry>>)
    requires start <= |buf|
    ensures r == DecodeFrom(buf, start, n)
  {
    var pos: nat := start;
    var out: seq<Entry> := [];
    ghost var goal := DecodeFrom(buf, start, n);
    PrependNothing(goal);
    for i: nat := 0 to n
      invariant pos <= |buf|
      invariant Prepend(out, DecodeFrom(buf, pos, n - i)) == goal
    {
      var entry := DecodeEntry(buf, pos);
      if entry == None {
        return None;
      }
      DecodeNext(buf, pos, n - i, entry.value, out);
      out := out + [Entry(entry.value.key, entry.value.value)];
      pos := entry.value.next;
    }
    assert out + [] == out;
    return Some(out);
  }

  /** decode_meta; None is any of its error returns. */
  method DecodeMeta(buf: seq<byte>) returns (r: Option<seq<Entry>>)
    ensures r == Decode(buf)
  {
    var header := ReadHeader(buf);
    if header == None {
      return None;
    }
    r := DecodeEntries(buf, header.value.1, header.value.0);
  }

  // ---------------------------------------------------------------------------------------
  // Search
  // ---------------------------------------------------------------------------------------

  /** std::monostate stands both for Null and for not found. */
  function OrNull(r: Option<Value>): Value {
    if r.Some? then r.value else Null
  }

  /** The value of a hit, decoded where it stands; Null when it is cut off or of no known type. */
  method HitValue(blob: seq<byte>, cur: nat, tag: byte) returns (v: Value)
    requires 1 <= cur <= |blob| && blob[cur - 1] == tag
    ensures v == match ParseValue(blob, cur - 1) case None => Null case Some((value, _)) => value
  {
    match tag
    case 0 =>
      return Null;
    case 1 =>
      if cur >= |blob| {
        return Null;
      }
      return Bool(blob[cur] != 0);
    case 2 =>
      if |blob| - cur < 8 {
        return Null;
      }
      var bits := LE.ReadU64(blob, cur);
      return Int64(bits);
    case 3 =>
      if |blob| - cur < 8 {
        return Null;
      }
      var bits := LE.ReadU64(blob, cur);
      return Float64(bits);
    case 4 =>
      var length := VByte.ReadChecked(blob, cur);
      if length == None || length.value.0 as int > |blob| - length.value.1 {
        return Null;
      }
      return Str(blob[length.value.1..length.value.1 + length.value.0]);
    case _ =>
      return Null;
  }

  /** Past a value that is not wanted; to the end of the blob when it is not well formed. */
  method SkipValue(blob: seq<byte>, at: nat, tag: byte) returns (cur: nat)
    requires 1 <= at <= |blob| && blob[at - 1] == tag
    ensures cur == match ParseValue(blob, at - 1) case None => |blob| case Some((_, next)) => next
  {
    cur := at;
    match tag
    case 0 =>
    case 1 =>
      if cur < |blob| {
        cur := cur + 1;
      }
    case 2 =>
      cur := if |blob| - cur >= 8 then cur + 8 else |blob|;
    case 3 =>
      cur := if |blob| - cur >= 8 then cur + 8 else |blob|;
    case 4 =>
      var length := VByte.ReadChecked(blob, cur);
      if length == None || length.value.0 as int > |blob| - length.value.1 {
        cur := |blob|;
      } else {
        cur := length.value.1 + length.value.0;
      }
    case _ =>
      cur := |blob|;
  }

  /** What one turn of the search loop comes to. */
  datatype Turn = Stop | Hit(v: Value) | Go(cur: nat)

  predicate TurnOk(turn: Turn, entry: Option<Parsed>, key: seq<byte>, size: nat) {
    match entry
    case None => turn == Stop || turn == Hit(Null) || turn == Go(size)
    case Some(p) =>
      if Less(key, p.key) then turn == Stop
      else if p.key == key then turn == Hit(p.value)
      else turn == Go(p.next)
  }

  method Examine(blob: seq<byte>, at: nat, key: seq<byte>) returns (turn: Turn)
    requires at <= |blob|
    ensures TurnOk(turn, ParseEntry(blob, at), key, |blob|)
  {
    if at >= |blob| {
      return Stop;
    }
    var length := VByte.ReadChecked(blob, at);
    if length == None {
      return Stop;
    }
    var (kl, p) := length.value;
    if kl as int > |blob| - p {
      return Stop;
    }
    var ek := blob[p..p + kl];
    if Less(key, ek) {
      return Stop;
    }
    var cur := p + kl;
    if cur >= |blob| {
      return Stop;
    }
    var tag := blob[cur];
    cur := cur + 1;
    if ek == key {
      var v := HitValue(blob, cur, tag);
      return Hit(v);
    }
    cur := SkipValue(blob, cur, tag);
    return Go(cur);
  }

  lemma TurnTaken(blob: seq<byte>, at: nat, n: nat, key: seq<byte>, turn: Turn, entry: Option<Parsed>)
    requires at <= |blob| && n > 0 && entry == ParseEntry(blob, at) && TurnOk(turn, entry, key, |blob|)
    ensures turn.Go? ==> turn.cur <= |blob|
    ensures OrNull(FindFrom(blob, at, n, key)) == match turn
            case Stop => Null
            case Hit(v) => v
            case Go(cur) => OrNull(FindFrom(blob, cur, n - 1, key))
  {
    if entry == None {
      assert ParseEntry(blob, |blob|) == None;
    } else {
      FindStep(blob, at, entry.value, n, key);
    }
  }

  method SearchEntries(blob: seq<byte>, start: nat, n: nat, key: seq<byte>) returns (v: Value)
    requires start <= |blob|
    ensures v == OrNull(FindFrom(blob, start, n, key))
  {
    var cur: nat := start;
    ghost var goal := OrNull(FindFrom(blob, start, n, key));
    for i: nat := 0 to n
      invariant cur <= |blob|
      invariant OrNull(FindFrom(blob, cur, n - i, key)) == goal
    {
      var turn := Examine(blob, cur, key);
      TurnTaken(blob, cur, n - i, key, turn, ParseEntry(blob, cur));
      match turn
      case Stop => return Null;
      case Hit(value) => return value;
      case Go(next) => cur := next;
    }
    return Null;
  }

  /** meta_lookup, on any bytes whatever. */
  method MetaLookup(blob: seq<byte>, key: seq<byte>) returns (v: Value)
    ensures v == OrNull(Find(blob, key))
  {
    var header := ReadHeader(blob);
    if header == None {
      return Null;
    }
    v := SearchEntries(blob, header.value.1, header.value.0, key);
  }
}
