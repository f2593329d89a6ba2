/**
  The metadata blob (include/bitcask/meta_codec.hpp): a version byte, a count, and that many entries in
  ascending key order. Its encoding, what one entry at a given position parses to, and what a search
  finds; the C++ codec and the C API are both measured against these functions.
 */
module MetaFormat {
  import opened Bytes
  import opened ByteOrder
  import LE = LittleEndian
  import VByte

  const VERSION: byte := 1

  /** Integers and doubles are kept as their 64-bit patterns, which is all the format stores of them. */
  datatype Value = Null | Bool(b: bool) | Int64(bits: uint64) | Float64(bits: uint64) | Str(s: seq<byte>)

  datatype Entry = Entry(key: seq<byte>, value: Value)

  // ---------------------------------------------------------------------------------------
  // Encoding
  // ---------------------------------------------------------------------------------------

  function ValueBytes(v: Value): seq<byte> {
    match v
    case Null => [0]
    case Bool(b) => [1, if b then 1 else 0]
    case Int64(bits) => [2] + LE.Put64(bits)
    case Float64(bits) => [3] + LE.Put64(bits)
    case Str(s) => [4] + VByte.Encoded(|s|) + s
  }

  function EntryBytes(e: Entry): seq<byte> {
    VByte.Encoded(|e.key|) + e.key + ValueBytes(e.value)
  }

  function Body(entries: seq<Entry>): seq<byte> {
    if entries == [] then [] else EntryBytes(entries[0]) + Body(entries[1..])
  }

  function Blob(entries: seq<Entry>): seq<byte> {
    [VERSION] + VByte.Encoded(|entries|) + Body(entries)
  }

  lemma Associative(a: seq<byte>, b: seq<byte>, c: seq<byte>)
    ensures (a + b) + c == a + (b + c)
  {
  }

  lemma BodySplits(entries: seq<Entry>, e: seq<byte>, rest: seq<Entry>)
    requires entries != [] && e == EntryBytes(entries[0]) && rest == entries[1..]
    ensures Body(entries) == e + Body(rest)
  {
  }

  lemma {:induction false} BodyNext(entries: seq<Entry>, i: nat, e: seq<byte>)
    requires i < |entries| && e == EntryBytes(entries[i])
    ensures Body(entries[..i + 1]) == Body(entries[..i]) + e
    decreases i
  {
    var one, all := entries[..i], entries[..i + 1];
    if i == 0 {
      BodySplits(all, e, []);
    } else {
      var first, tail := EntryBytes(entries[0]), entries[1..];
      BodyNext(tail, i - 1, e);
      BodySplits(one, first, tail[..i - 1]);
      BodySplits(all, first, tail[..i]);
      Associative(first, Body(tail[..i - 1]), e);
    }
  }

  lemma OneByteNumber(n: nat)
    requires n < 128
    ensures VByte.Encoded(n) == [n + 128]
  {
  }

  lemma OneEntry(k: byte, v: Value)
    ensures Blob([Entry([k], v)]) == [1, 129, 129, k] + ValueBytes(v)
  {
    OneByteNumber(1);
    var e := Entry([k], v);
    assert [e][1..] == [];
    assert Body([e]) == EntryBytes(e) + Body([]);
    assert EntryBytes(e) == [129] + [k] + ValueBytes(v);
  }

  lemma BlobsOfFewBytes(k: byte)
    ensures Blob([Entry([k], Null)]) == [1, 129, 129, k, 0]
    ensures Blob([Entry([k], Bool(false))]) == [1, 129, 129, k, 1, 0]
    ensures Blob([Entry([k], Bool(true))]) == [1, 129, 129, k, 1, 1]
  {
    OneEntry(k, Null);
    OneEntry(k, Bool(false));
    OneEntry(k, Bool(true));
  }

  lemma BlobOfWord(k: byte, a: byte, b: byte, tag: byte, v: Value)
    requires tag == 2 || tag == 3
    requires v == if tag == 2 then Int64(a as int + 256 * b as int) else Float64(a as int + 256 * b as int)
    ensures Blob([Entry([k], v)]) == [1, 129, 129, k, tag, a, b, 0, 0, 0, 0, 0, 0]
  {
    OneEntry(k, v);
    TwoLowBytes(a, b);
    Spelled(k, a, b, tag, ValueBytes(v));
  }

  lemma Spelled(k: byte, a: byte, b: byte, tag: byte, s: seq<byte>)
    requires s == [tag] + [a, b, 0, 0, 0, 0, 0, 0]
    ensures [1, 129, 129, k] + s == [1, 129, 129, k, tag, a, b, 0, 0, 0, 0, 0, 0]
  {
  }

  lemma BlobOfText(k: byte, a: byte, b: byte)
    ensures Blob([Entry([k], Str([a, b]))]) == [1, 129, 129, k, 4, 130, a, b]
  {
    OneEntry(k, Str([a, b]));
    OneByteNumber(2);
    assert ValueBytes(Str([a, b])) == [4] + [130] + [a, b];
  }

  /** The bytes of a blob with one entry, for every type of value. */
  lemma BlobsOfEveryType(k: byte, a: byte, b: byte, n: uint64)
    requires n == a as int + 256 * b as int
    ensures Blob([Entry([k], Null)]) == [1, 129, 129, k, 0]
    ensures Blob([Entry([k], Bool(false))]) == [1, 129, 129, k, 1, 0]
    ensures Blob([Entry([k], Bool(true))]) == [1, 129, 129, k, 1, 1]
    ensures Blob([Entry([k], Int64(n))]) == [1, 129, 129, k, 2, a, b, 0, 0, 0, 0, 0, 0]
    ensures Blob([Entry([k], Float64(n))]) == [1, 129, 129, k, 3, a, b, 0, 0, 0, 0, 0, 0]
    ensures Blob([Entry([k], Str([a, b]))]) == [1, 129, 129, k, 4, 130, a, b]
  {
    BlobsOfFewBytes(k);
    BlobOfWord(k, a, b, 2, Int64(n));
    BlobOfWord(k, a, b, 3, Float64(n));
    BlobOfText(k, a, b);
  }

  lemma Nothing64(n: nat)
    requires n == 6
    ensures LE.Put(0, n) == [0, 0, 0, 0, 0, 0]
  {
    assert LE.Put(0, 3) == [0, 0, 0];
    assert LE.Put(0, 6) == [0] + ([0] + ([0] + LE.Put(0, 3)));
  }

  lemma TwoLowBytes(a: byte, b: byte)
    ensures LE.Put64(a as int + 256 * b as int) == [a, b, 0, 0, 0, 0, 0, 0]
  {
    var v: nat := a as int + 256 * b as int;
    assert v % 256 == a as int && v / 256 == b as int && v / 256 / 256 == 0;
    Nothing64(6);
    assert LE.Put(v, 8) == [a] + LE.Put(b as int, 7);
    assert LE.Put(b as int, 7) == [b] + LE.Put(0, 6);
  }

  // ---------------------------------------------------------------------------------------
  // Parsing
  // ---------------------------------------------------------------------------------------

  datatype Parsed = Parsed(key: seq<byte>, value: Value, next: nat)

  /** The bytes of a counted string at cur. */
  function ParseString(blob: seq<byte>, cur: nat): (r: Option<(seq<byte>, nat)>)
    requires cur <= |blob|
    ensures r.Some? ==> cur < r.value.1 <= |blob|
  {
    match VByte.Read(blob, cur)
    case None => None
    case Some((n, p)) => if n as int > |blob| - p then None else Some((blob[p..p + n], p + n))
  }

  /** A value at cur, whose first byte is its type. */
  function ParseValue(blob: seq<byte>, cur: nat): (r: Option<(Value, nat)>)
    requires cur <= |blob|
    ensures r.Some? ==> cur < r.value.1 <= |blob|
  {
    if cur == |blob| then None
    else if blob[cur] == 0 then Some((Null, cur + 1))
    else if blob[cur] == 1 then
      if cur + 1 == |blob| then None else Some((Bool(blob[cur + 1] != 0), cur + 2))
    else if blob[cur] == 2 then
      if |blob| - (cur + 1) < 8 then None else Some((Int64(LE.Get64(blob, cur + 1)), cur + 9))
    else if blob[cur] == 3 then
      if |blob| - (cur + 1) < 8 then None else Some((Float64(LE.Get64(blob, cur + 1)), cur + 9))
    else if blob[cur] == 4 then
      match ParseString(blob, cur + 1)
      case None => None
      case Some((s, next)) => Some((Str(s), next))
    else None
  }

  function ParseEntry(blob: seq<byte>, off: nat): (r: Option<Parsed>)
    ensures r.Some? ==> off < r.value.next <= |blob|
  {
    if off >= |blob| then None
    else
      match ParseString(blob, off)
      case None => None
      case Some((key, cur)) =>
        match ParseValue(blob, cur)
        case None => None
        case Some((value, next)) => Some(Parsed(key, value, next))
  }

  /** The count and where the entries begin. */
  function ParseHeader(blob: seq<byte>): (r: Option<(uint64, nat)>)
    ensures r.Some? ==> 1 < r.value.1 <= |blob|
  {
    if |blob| < 2 || blob[0] != VERSION then None else VByte.Read(blob, 1)
  }

  function DecodeFrom(blob: seq<byte>, off: nat, n: nat): Option<seq<Entry>>
    decreases n
  {
    if n == 0 then Some([])
    else
      match ParseEntry(blob, off)
      case None => None
      case Some(p) =>
        match DecodeFrom(blob, p.next, n - 1)
        case None => None
        case Some(rest) => Some([Entry(p.key, p.value)] + rest)
  }

  function Decode(blob: seq<byte>): Option<seq<Entry>> {
    match ParseHeader(blob)
    case None => None
    case Some((n, off)) => DecodeFrom(blob, off, n)
  }

  /** The search for a key: entries are parsed one by one until one is not well formed, or has the key, or
      has a greater key. */
  function FindFrom(blob: seq<byte>, off: nat, n: nat, key: seq<byte>): Option<Value>
    decreases n, 1
  {
    if n == 0 then None else FindAt(blob, ParseEntry(blob, off), n, key)
  }

  function FindAt(blob: seq<byte>, entry: Option<Parsed>, n: nat, key: seq<byte>): Option<Value>
    requires n > 0
    decreases n, 0
  {
    match entry
    case None => None
    case Some(p) =>
      if Less(key, p.key) then None
      else if p.key == key then Some(p.value)
      else FindFrom(blob, p.next, n - 1, key)
  }

  function Find(blob: seq<byte>, key: seq<byte>): Option<Value> {
    match ParseHeader(blob)
    case None => None
    case Some((n, off)) => FindFrom(blob, off, n, key)
  }

  // ---------------------------------------------------------------------------------------
  // Round trips
  // ---------------------------------------------------------------------------------------

  predicate Sized(e: Entry) {
    |e.key| < 0x8000_0000_0000_0000 && (e.value.Str? ==> |e.value.s| < 0x8000_0000_0000_0000)
  }

  /** Counts and sizes below 2^63. */
  ghost predicate Encodable(entries: seq<Entry>) {
    |entries| < 0x8000_0000_0000_0000 && forall i :: 0 <= i < |entries| ==> Sized(entries[i])
  }

  lemma Shorter(blob: seq<byte>, at: nat, a: seq<byte>, b: seq<byte>)
    requires at <= |blob| && blob[at..] == a + b
    ensures at + |a| <= |blob| && blob[at..at + |a|] == a && blob[at + |a|..] == b
  {
    assert blob[at..at + |a|] == blob[at..][..|a|];
    assert blob[at + |a|..] == blob[at..][|a|..];
  }

  lemma ParseStringBack(blob: seq<byte>, cur: nat, s: seq<byte>, rest: seq<byte>)
    requires |s| < 0x8000_0000_0000_0000 && cur <= |blob| && blob[cur..] == VByte.Encoded(|s|) + s + rest
    ensures ParseString(blob, cur) == Some((s, cur + |VByte.Encoded(|s|)| + |s|))
  {
    var n := VByte.Encoded(|s|);
    assert blob[cur..] == n + (s + rest);
    VByte.RoundTrip(blob, cur, |s|, s + rest);
    Shorter(blob, cur, n, s + rest);
    Shorter(blob, cur + |n|, s, rest);
  }

  lemma ParseWordBack(blob: seq<byte>, cur: nat, tag: byte, bits: uint64, rest: seq<byte>)
    requires cur <= |blob| && blob[cur..] == [tag] + LE.Put64(bits) + rest
    ensures cur + 9 <= |blob| && blob[cur] == tag && LE.Get64(blob, cur + 1) == bits
  {
    assert blob[cur..] == [tag] + (LE.Put64(bits) + rest);
    Shorter(blob, cur, [tag], LE.Put64(bits) + rest);
    Shorter(blob, cur + 1, LE.Put64(bits), rest);
    assert blob[cur] == blob[cur..][0];
    LE.GetPut64(bits, blob, cur + 1);
  }

  lemma Regroup(a: seq<byte>, b: seq<byte>, c: seq<byte>, d: seq<byte>)
    ensures ((a + b) + c) + d == a + ((b + c) + d)
  {
  }

  lemma ParseTextBack(blob: seq<byte>, cur: nat, s: seq<byte>, n: seq<byte>, rest: seq<byte>)
    requires |s| < 0x8000_0000_0000_0000 && n == VByte.Encoded(|s|)
    requires cur <= |blob| && blob[cur..] == (([4] + n) + s) + rest
    ensures ParseValue(blob, cur) == Some((Str(s), cur + 1 + |n| + |s|))
  {
    Regroup([4], n, s, rest);
    VByte.FirstByte(blob, cur, 4, (n + s) + rest);
    ParseStringBack(blob, cur + 1, s, rest);
    TextIs(blob, cur, s, cur + 1 + |n| + |s|);
  }

  lemma TextIs(blob: seq<byte>, cur: nat, s: seq<byte>, next: nat)
    requires cur < |blob| && blob[cur] == 4 && ParseString(blob, cur + 1) == Some((s, next))
    ensures ParseValue(blob, cur) == Some((Str(s), next))
  {
  }

  lemma ParseBoolBack(blob: seq<byte>, cur: nat, b: bool, rest: seq<byte>)
    requires cur <= |blob| && blob[cur..] == [1, if b then 1 else 0] + rest
    ensures ParseValue(blob, cur) == Some((Bool(b), cur + 2))
  {
    assert blob[cur] == blob[cur..][0] && blob[cur + 1] == blob[cur..][1];
  }

  lemma ParseValueBack(blob: seq<byte>, cur: nat, v: Value, rest: seq<byte>)
    requires (v.Str? ==> |v.s| < 0x8000_0000_0000_0000) && cur <= |blob| && blob[cur..] == ValueBytes(v) + rest
    ensures ParseValue(blob, cur) == Some((v, cur + |ValueBytes(v)|))
  {
    match v
    case Null =>
      assert blob[cur] == blob[cur..][0];
    case Bool(b) =>
      ParseBoolBack(blob, cur, b, rest);
    case Int64(bits) =>
      ParseWordBack(blob, cur, 2, bits, rest);
    case Float64(bits) =>
      ParseWordBack(blob, cur, 3, bits, rest);
    case Str(s) =>
      ParseTextBack(blob, cur, s, VByte.Encoded(|s|), rest);
  }

  /** An entry parses back wherever it stands. */
  lemma ParseEntryBack(blob: seq<byte>, off: nat, e: Entry, rest: seq<byte>)
    requires Sized(e) && off <= |blob| && blob[off..] == EntryBytes(e) + rest
    ensures ParseEntry(blob, off) == Some(Parsed(e.key, e.value, off + |EntryBytes(e)|))
  {
    var k := VByte.Encoded(|e.key|) + e.key;
    var v := ValueBytes(e.value);
    assert blob[off..] == VByte.Encoded(|e.key|) + e.key + (v + rest);
    ParseStringBack(blob, off, e.key, v + rest);
    assert blob[off..] == k + (v + rest);
    Shorter(blob, off, k, v + rest);
    ParseValueBack(blob, off + |k|, e.value, rest);
  }

  lemma HeaderBack(blob: seq<byte>, count: nat, body: seq<byte>) returns (off: nat)
    requires count < 0x8000_0000_0000_0000 && blob == [VERSION] + VByte.Encoded(count) + body
    ensures off <= |blob| && blob[off..] == body && ParseHeader(blob) == Some((count, off))
  {
    var n := VByte.Encoded(count);
    assert blob[1..] == n + body;
    VByte.RoundTrip(blob, 1, count, body);
    off := 1 + |n|;
    Shorter(blob, 1, n, body);
  }

  /** The first entry of a body parses back and the rest of the body follows it. */
  lemma FirstBack(blob: seq<byte>, off: nat, entries: seq<Entry>, rest: seq<Entry>) returns (next: nat)
    requires entries != [] && Sized(entries[0]) && rest == entries[1..]
    requires off <= |blob| && blob[off..] == Body(entries)
    ensures next <= |blob| && blob[next..] == Body(rest)
    ensures ParseEntry(blob, off) == Some(Parsed(entries[0].key, entries[0].value, next))
  {
    var e := EntryBytes(entries[0]);
    BodySplits(entries, e, rest);
    ParseEntryBack(blob, off, entries[0], Body(rest));
    Shorter(blob, off, e, Body(rest));
    next := off + |e|;
  }

  lemma DecodeStep(blob: seq<byte>, off: nat, next: nat, entries: seq<Entry>, n: nat)
    requires n == |entries| > 0
    requires ParseEntry(blob, off) == Some(Parsed(entries[0].key, entries[0].value, next))
    requires DecodeFrom(blob, next, n - 1) == Some(entries[1..])
    ensures DecodeFrom(blob, off, n) == Some(entries)
  {
    assert entries == [entries[0]] + entries[1..];
  }

  lemma {:induction false} DecodeBack(blob: seq<byte>, off: nat, entries: seq<Entry>)
    requires Encodable(entries) && off <= |blob| && blob[off..] == Body(entries)
    ensures DecodeFrom(blob, off, |entries|) == Some(entries)
    decreases |entries|
  {
    if entries != [] {
      var rest := entries[1..];
      RestIsEncodable(entries, rest);
      var next := FirstBack(blob, off, entries, rest);
      DecodeBack(blob, next, rest);
      DecodeStep(blob, off, next, entries, |entries|);
    }
  }

  lemma RestIsEncodable(entries: seq<Entry>, rest: seq<Entry>)
    requires Encodable(entries) && entries != [] && rest == entries[1..]
    ensures Encodable(rest) && Sized(entries[0]) && |rest| == |entries| - 1
  {
  }

  /** Decoding undoes encoding. */
  lemma DecodeUndoesEncode(entries: seq<Entry>)
    requires Encodable(entries)
    ensures Decode(Blob(entries)) == Some(entries)
  {
    var off := HeaderBack(Blob(entries), |entries|, Body(entries));
    DecodeBack(Blob(entries), off, entries);
  }

  // ---------------------------------------------------------------------------------------
  // The search
  // ---------------------------------------------------------------------------------------

  /** Keys ascend strictly. */
  ghost predicate Ordered(entries: seq<Entry>) {
    forall i, j :: 0 <= i < j < |entries| ==> Less(entries[i].key, entries[j].key)
  }

  /** The value of the entry with the key, if there is one. */
  ghost predicate IsValueAt(entries: seq<Entry>, key: seq<byte>, r: Option<Value>) {
    match r
    case None => forall i :: 0 <= i < |entries| ==> entries[i].key != key
    case Some(v) => Entry(key, v) in entries
  }

  lemma FindStep(blob: seq<byte>, off: nat, first: Parsed, n: nat, key: seq<byte>)
    requires n > 0 && ParseEntry(blob, off) == Some(first)
    ensures Less(key, first.key) ==> FindFrom(blob, off, n, key) == None
    ensures first.key == key ==> FindFrom(blob, off, n, key) == Some(first.value)
    ensures !Less(key, first.key) && first.key != key ==>
              FindFrom(blob, off, n, key) == FindFrom(blob, first.next, n - 1, key)
  {
    Irreflexive(key);
  }

  lemma {:induction false} FindBack(blob: seq<byte>, off: nat, entries: seq<Entry>, key: seq<byte>, n: nat)
    requires Encodable(entries) && Ordered(entries) && n == |entries|
    requires off <= |blob| && blob[off..] == Body(entries)
    ensures IsValueAt(entries, key, FindFrom(blob, off, n, key))
    decreases n
  {
    if n > 0 {
      var e := entries[0];
      var next := FirstBack(blob, off, entries, entries[1..]);
      FindStep(blob, off, Parsed(e.key, e.value, next), n, key);
      FindBack(blob, next, entries[1..], key, n - 1);
      FindHere(entries, key, FindFrom(blob, off, n, key), FindFrom(blob, next, n - 1, key));
    }
  }

  lemma FindHere(entries: seq<Entry>, key: seq<byte>, r: Option<Value>, later: Option<Value>)
    requires Ordered(entries) && entries != [] && IsValueAt(entries[1..], key, later)
    requires Less(key, entries[0].key) ==> r == None
    requires entries[0].key == key ==> r == Some(entries[0].value)
    requires !Less(key, entries[0].key) && entries[0].key != key ==> r == later
    ensures IsValueAt(entries, key, r)
  {
    if Less(key, entries[0].key) {
      GreaterFromHere(entries, key);
    } else if entries[0].key != key {
      FindInRest(entries, key, r);
    }
  }

  lemma FindInRest(entries: seq<Entry>, key: seq<byte>, r: Option<Value>)
    requires entries != [] && entries[0].key != key && IsValueAt(entries[1..], key, r)
    ensures IsValueAt(entries, key, r)
  {
    if r == None {
      forall i | 0 <= i < |entries| ensures entries[i].key != key {
        if i > 0 {
          assert entries[1..][i - 1].key != key;
        }
      }
    }
  }

  lemma GreaterFromHere(entries: seq<Entry>, key: seq<byte>)
    requires Ordered(entries) && entries != [] && Less(key, entries[0].key)
    ensures forall i :: 0 <= i < |entries| ==> entries[i].key != key
  {
    forall i | 0 <= i < |entries| ensures entries[i].key != key {
      if i > 0 {
        Transitive(key, entries[0].key, entries[i].key);
      }
      Asymmetric(key, entries[i].key);
    }
  }

  /** With ascending keys the early exit loses nothing: the search on a blob is the search in the list. */
  lemma FindIsLookup(entries: seq<Entry>, key: seq<byte>)
    requires Encodable(entries) && Ordered(entries)
    ensures IsValueAt(entries, key, Find(Blob(entries), key))
  {
    var off := HeaderBack(Blob(entries), |entries|, Body(entries));
    FindBack(Blob(entries), off, entries, key, |entries|);
  }

  /** Row i is the first with the key, or there is none and i is the number of entries. */
  ghost predicate IsFirst(entries: seq<Entry>, key: seq<byte>, i: nat) {
    i <= |entries| && (forall j :: 0 <= j < i ==> entries[j].key != key) && (i < |entries| ==> entries[i].key == key)
  }

  /** No entry in front of the i-th has a greater key. */
  ghost predicate NoneGreater(entries: seq<Entry>, key: seq<byte>, i: nat)
    requires i <= |entries|
  {
    forall j :: 0 <= j < i ==> !Less(key, entries[j].key)
  }

  ghost predicate FoundFirst(entries: seq<Entry>, key: seq<byte>, i: nat, r: Option<Value>)
    requires i <= |entries|
  {
    r == if i < |entries| && NoneGreater(entries, key, i) then Some(entries[i].value) else None
  }

  lemma FirstInRest(entries: seq<Entry>, key: seq<byte>, i: nat, rest: seq<Entry>, r: Option<Value>)
    requires IsFirst(entries, key, i) && i > 0 && rest == entries[1..] && !Less(key, entries[0].key)
    ensures IsFirst(rest, key, i - 1)
    ensures FoundFirst(rest, key, i - 1, r) ==> FoundFirst(entries, key, i, r)
  {
    forall j | 0 <= j < i - 1 ensures rest[j].key == entries[j + 1].key {
    }
    assert NoneGreater(rest, key, i - 1) <==> NoneGreater(entries, key, i) by {
      if NoneGreater(rest, key, i - 1) {
        forall j | 0 <= j < i ensures !Less(key, entries[j].key) {
          if j > 0 {
            assert !Less(key, rest[j - 1].key);
          }
        }
      }
    }
  }

  lemma {:induction false} FindFirst(blob: seq<byte>, off: nat, entries: seq<Entry>, key: seq<byte>, i: nat, n: nat)
    requires Encodable(entries) && IsFirst(entries, key, i) && n == |entries|
    requires off <= |blob| && blob[off..] == Body(entries)
    ensures FoundFirst(entries, key, i, FindFrom(blob, off, n, key))
    decreases n
  {
    if n > 0 {
      var e, rest := entries[0], entries[1..];
      var next := FirstBack(blob, off, entries, rest);
      FindStep(blob, off, Parsed(e.key, e.value, next), n, key);
      if i == 0 {
        Irreflexive(key);
      } else if !Less(key, e.key) {
        FirstInRest(entries, key, i, rest, FindFrom(blob, next, n - 1, key));
        FindFirst(blob, next, rest, key, i - 1, n - 1);
      }
    }
  }

  /** In any order: the search finds the first entry with the key exactly if no greater key stands in front of it, and
      nothing otherwise. */
  lemma FindsFirstExactly(entries: seq<Entry>, key: seq<byte>, i: nat)
    requires Encodable(entries) && IsFirst(entries, key, i)
    ensures Find(Blob(entries), key)
         == if i < |entries| && NoneGreater(entries, key, i) then Some(entries[i].value) else None
  {
    var off := HeaderBack(Blob(entries), |entries|, Body(entries));
    FindFirst(Blob(entries), off, entries, key, i, |entries|);
  }

  /** Out of order it may lose an entry that is there. */
  lemma OrderIsNeeded() returns (entries: seq<Entry>, key: seq<byte>)
    ensures Entry(key, Bool(true)) in entries && Find(Blob(entries), key) == None
  {
    var b, a := Entry([2], Null), Entry([1], Bool(true));
    entries, key := [b, a], [1];
    var off := HeaderBack(Blob(entries), 2, Body(entries));
    var next := FirstBack(Blob(entries), off, entries, [a]);
    FindStep(Blob(entries), off, Parsed([2], Null, next), 2, key);
  }
}
