/**
  The C side of the metadata codec (c_api/internal.h, c_api/bitcask_kv.cpp): a parser that hands out one
  entry at a time, a cursor over it, a search built on the cursor, and an encoder that sorts first.
 */
module MetaApi {
  import opened Bytes
  import opened ByteOrder
  import LE = LittleEndian
  import VByte
  import opened MetaFormat
  import MetaCodec

  // ---------------------------------------------------------------------------------------
  // Parser and cursor
  // ---------------------------------------------------------------------------------------

  method ParseTyped(blob: seq<byte>, at: nat) returns (r: Option<(Value, nat)>)
    requires 1 <= at <= |blob|
    ensures r == ParseValue(blob, at - 1)
  {
    var cur := at;
    match blob[at - 1]
    case 0 =>
      return Some((Null, cur));
    case 1 =>
      if cur >= |blob| {
        return None;
      }
      return Some((Bool(blob[cur] != 0), cur + 1));
    case 2 =>
      if |blob| - cur < 8 {
        return None;
      }
      var bits := LE.ReadU64(blob, cur);
      return Some((Int64(bits), cur + 8));
    case 3 =>
      if |blob| - cur < 8 {
        return None;
      }
      var bits := LE.ReadU64(blob, cur);
      return Some((Float64(bits), cur + 8));
    case 4 =>
      var length := VByte.ReadChecked(blob, cur);
      if length == None || length.value.0 as int > |blob| - length.value.1 {
        return None;
      }
      return Some((Str(blob[length.value.1..length.value.1 + length.value.0]), length.value.1 + length.value.0));
    case _ =>
      return None;
  }

  /** meta_parse_entry */
  method ParseOne(blob: seq<byte>, off: nat) returns (r: Option<Parsed>)
    ensures r == ParseEntry(blob, off)
  {
    if off >= |blob| {
      return None;
    }
    var length := VByte.ReadChecked(blob, off);
    if length == None {
      return None;
    }
    var (kl, kp) := length.value;
    if kl as int > |blob| - kp {
      return None;
    }
    var cur := kp + kl;
    if cur >= |blob| {
      return None;
    }
    var value := ParseTyped(blob, cur + 1);
    if value == None {
      return None;
    }
    return Some(Parsed(blob[kp..cur], value.value.0, value.value.1));
  }

  /** The entries a cursor still has to give: as many as parse, up to n. */
  function Readable(blob: seq<byte>, off: nat, n: nat): seq<Entry>
    decreases n, 1
  {
    if n == 0 then [] else ReadableAt(blob, ParseEntry(blob, off), n)
  }

  function ReadableAt(blob: seq<byte>, entry: Option<Parsed>, n: nat): seq<Entry>
    requires n > 0
    decreases n, 0
  {
    match entry
    case None => []
    case Some(p) => [Entry(p.key, p.value)] + Readable(blob, p.next, n - 1)
  }

  lemma ReadableStep(blob: seq<byte>, off: nat, n: nat)
    ensures n == 0 || ParseEntry(blob, off) == None ==> Readable(blob, off, n) == []
    ensures n > 0 && ParseEntry(blob, off).Some? ==>
              var p := ParseEntry(blob, off).value;
              Readable(blob, off, n) == [Entry(p.key, p.value)] + Readable(blob, p.next, n - 1)
  {
  }

  /** The full decoder accepts a blob just when a cursor gets through all its entries, and then both see
      the same ones. */
  lemma {:induction false} CursorSeesWhatDecodes(blob: seq<byte>, off: nat, n: nat)
    ensures |Readable(blob, off, n)| <= n
    ensures DecodeFrom(blob, off, n)
         == if |Readable(blob, off, n)| == n then Some(Readable(blob, off, n)) else None
    decreases n
  {
    if n > 0 && ParseEntry(blob, off) != None {
      CursorSeesWhatDecodes(blob, ParseEntry(blob, off).value.next, n - 1);
    }
  }

  class MetaIter {
    var offset: nat
    var remaining: nat

    constructor ()
    {
      offset, remaining := 0, 0;
    }

    function Pending(blob: seq<byte>): seq<Entry>
      reads this
    {
      Readable(blob, offset, remaining)
    }

    /** bitcask_meta_iter_begin */
    method Begin(blob: seq<byte>) returns (ok: bool)
      modifies this
      ensures ok == (remaining > 0)
      ensures match ParseHeader(blob)
              case None => offset == 0 && remaining == 0
              case Some((n, off)) => offset == off && remaining == n
    {
      offset, remaining := 0, 0;
      if |blob| < 2 || blob[0] != VERSION {
        return false;
      }
      var header := VByte.ReadChecked(blob, 1);
      if header == None {
        return false;
      }
      remaining := header.value.0;
      offset := header.value.1;
      return remaining > 0;
    }

    /** bitcask_meta_iter_next: the next entry, or the end for good. */
    method Next(blob: seq<byte>) returns (ok: bool, key: seq<byte>, value: Value)
      modifies this
      ensures ok == (old(Pending(blob)) != [])
      ensures ok ==> old(Pending(blob)) == [Entry(key, value)] + Pending(blob)
      ensures ok ==> old(remaining) == remaining + 1
      ensures ok ==> ParseEntry(blob, old(offset)) == Some(Parsed(key, value, offset))
      ensures !ok ==> remaining == 0 && (old(remaining) == 0 || ParseEntry(blob, old(offset)) == None)
    {
      ReadableStep(blob, offset, remaining);
      if remaining == 0 {
        return false, [], Null;
      }
      var raw := ParseOne(blob, offset);
      if raw == None {
        remaining := 0;
        return false, [], Null;
      }
      offset := raw.value.next;
      remaining := remaining - 1;
      return true, raw.value.key, raw.value.value;
    }
  }

  lemma FindEnds(blob: seq<byte>, off: nat, n: nat, key: seq<byte>)
    requires n == 0 || ParseEntry(blob, off) == None
    ensures FindFrom(blob, off, n, key) == None
  {
  }

  method SearchOn(blob: seq<byte>, it: MetaIter, want: seq<byte>, ghost goal: Option<Value>)
    returns (found: bool, value: Value)
    requires FindFrom(blob, it.offset, it.remaining, want) == goal
    modifies it
    ensures found == goal.Some? && value == MetaCodec.OrNull(goal)
  {
    while true
      invariant FindFrom(blob, it.offset, it.remaining, want) == goal
      decreases it.remaining
    {
      ghost var off, n := it.offset, it.remaining;
      var ok, key, v := it.Next(blob);
      if !ok {
        FindEnds(blob, off, n, want);
        return false, Null;
      }
      FindStep(blob, off, Parsed(key, v, it.offset), n, want);
      if Less(want, key) {
        return false, Null;
      }
      if key == want {
        return true, v;
      }
    }
  }

  /** bitcask_meta_lookup: on any bytes whatever it finds what the C++ search finds, the caller's value
      being left Null when nothing is found. */
  method Lookup(blob: seq<byte>, key: Option<seq<byte>>) returns (found: bool, value: Value)
    ensures key == None ==> !found && value == Null
    ensures key.Some? ==> found == Find(blob, key.value).Some? && value == MetaCodec.OrNull(Find(blob, key.value))
  {
    if key == None {
      return false, Null;
    }
    var it := new MetaIter();
    var any := it.Begin(blob);
    if !any {
      return false, Null;
    }
    found, value := SearchOn(blob, it, key.value, Find(blob, key.value));
  }

  // ---------------------------------------------------------------------------------------
  // Encoder
  // ---------------------------------------------------------------------------------------

  /** An entry as the caller passes it: no key is a null pointer, no value a null string or a type that
      does not exist. */
  datatype RawEntry = RawEntry(key: Option<seq<byte>>, value: Option<Value>)

  datatype Outcome = Encoded(blob: seq<byte>) | InvalidOption

  predicate Usable(e: RawEntry) {
    e.key.Some? && e.value.Some?
  }

  function Converted(raw: seq<RawEntry>): (es: seq<Entry>)
    requires forall i :: 0 <= i < |raw| ==> Usable(raw[i])
    ensures |es| == |raw|
    ensures forall i :: 0 <= i < |raw| ==> Usable(raw[i]) && es[i] == Entry(raw[i].key.value, raw[i].value.value)
  {
    seq(|raw|, i requires 0 <= i < |raw| && Usable(raw[i]) => Entry(raw[i].key.value, raw[i].value.value))
  }

  ghost predicate Sorted(es: seq<Entry>) {
    forall i, j :: 0 <= i < j < |es| ==> !Less(es[j].key, es[i].key)
  }

  ghost predicate DistinctKeys(es: seq<Entry>) {
    forall i, j :: 0 <= i < j < |es| ==> es[i].key != es[j].key
  }

  lemma NotLessTransitive(a: seq<byte>, b: seq<byte>, c: seq<byte>)
    requires !Less(b, a) && !Less(c, b)
    ensures !Less(c, a)
  {
    if a != b && b != c {
      Total(a, b);
      Total(b, c);
      Transitive(a, b, c);
      Asymmetric(a, c);
    }
  }

  /** Where an entry belongs: behind everything that is not greater. */
  method PlaceOf(s: seq<Entry>, e: Entry) returns (j: nat)
    requires Sorted(s)
    ensures j <= |s| && Sorted(s[..j] + [e] + s[j..])
  {
    j := 0;
    while j < |s| && !Less(e.key, s[j].key)
      invariant j <= |s| && forall k :: 0 <= k < j ==> !Less(e.key, s[k].key)
    {
      j := j + 1;
    }
    forall k | j <= k < |s| ensures !Less(s[k].key, e.key) {
      Asymmetric(e.key, s[j].key);
      if j < k {
        NotLessTransitive(e.key, s[j].key, s[k].key);
      }
    }
  }

  /** What std::sort promises for the comparison by key. */
  method SortByKey(es: seq<Entry>) returns (s: seq<Entry>)
    ensures Sorted(s) && multiset(s) == multiset(es)
  {
    s := [];
    for i := 0 to |es|
      invariant Sorted(s) && multiset(s) == multiset(es[..i])
    {
      var j := PlaceOf(s, es[i]);
      assert s == s[..j] + s[j..];
      assert es[..i + 1] == es[..i] + [es[i]];
      s := s[..j] + [es[i]] + s[j..];
    }
    assert es[..|es|] == es;
  }

  /** In a sorted list, equal keys are neighbours. */
  method HasDuplicate(s: seq<Entry>) returns (dup: bool)
    requires Sorted(s)
    ensures !dup ==> Ordered(s)
    ensures dup ==> !DistinctKeys(s)
  {
    var i := 1;
    while i < |s|
      invariant 1 <= i && forall k :: 0 < k < i && k < |s| ==> Less(s[k - 1].key, s[k].key)
    {
      if s[i - 1].key == s[i].key {
        return true;
      }
      Total(s[i - 1].key, s[i].key);
      i := i + 1;
    }
    StepsToOrder(s);
    return false;
  }

  lemma {:induction false} StepsToOrder(s: seq<Entry>)
    requires forall k :: 0 < k < |s| ==> Less(s[k - 1].key, s[k].key)
    ensures Ordered(s)
    decreases |s|
  {
    if |s| > 1 {
      var n := |s| - 1;
      StepsToOrder(s[..n]);
      forall i | 0 <= i < n ensures Less(s[i].key, s[n].key) {
        if i < n - 1 {
          Transitive(s[i].key, s[n - 1].key, s[n].key);
        }
      }
    }
  }

  lemma OrderedIsDistinct(s: seq<Entry>)
    requires Ordered(s)
    ensures DistinctKeys(s)
  {
    forall i, j | 0 <= i < j < |s| ensures s[i].key != s[j].key {
      Asymmetric(s[i].key, s[j].key);
    }
  }

  /** Whether keys are distinct does not depend on their order. */
  lemma {:induction false} DistinctUnderReordering(s: seq<Entry>, t: seq<Entry>)
    requires multiset(s) == multiset(t) && DistinctKeys(s)
    ensures DistinctKeys(t)
  {
    forall i, j | 0 <= i < j < |t| ensures t[i].key != t[j].key {
      if t[i].key == t[j].key {
        Twice(t, i, j);
        assert t[i] in multiset(t) && t[j] in multiset(t);
        assert t[i] in s && t[j] in s;
        var p :| 0 <= p < |s| && s[p] == t[i];
        var q :| 0 <= q < |s| && s[q] == t[j];
        assert p == q;
        Once(s, p);
        assert false;
      }
    }
  }

  lemma Twice(t: seq<Entry>, i: nat, j: nat)
    requires i < j < |t|
    ensures t[i] == t[j] ==> multiset(t)[t[i]] >= 2
  {
    assert t == t[..i] + [t[i]] + t[i + 1..j] + [t[j]] + t[j + 1..];
  }

  lemma Once(s: seq<Entry>, p: nat)
    requires DistinctKeys(s) && p < |s|
    ensures multiset(s)[s[p]] == 1
  {
    var a, b := s[..p], s[p + 1..];
    assert s == a + [s[p]] + b;
    assert s[p] !in a && s[p] !in b;
  }

  /** The order in which the caller lists the entries does not matter: there is one sorted list. */
  lemma {:induction false} SortedIsUnique(s: seq<Entry>, t: seq<Entry>)
    requires Ordered(s) && Ordered(t) && multiset(s) == multiset(t)
    ensures s == t
    decreases |s|
  {
    assert |s| == |multiset(s)| == |multiset(t)| == |t|;
    if s != [] {
      FirstIsFirst(s, t);
      assert s == [s[0]] + s[1..] && t == [t[0]] + t[1..];
      assert multiset(s[1..]) == multiset(s) - multiset{s[0]};
      SortedIsUnique(s[1..], t[1..]);
    }
  }

  lemma FirstIsFirst(s: seq<Entry>, t: seq<Entry>)
    requires Ordered(s) && Ordered(t) && multiset(s) == multiset(t) && |s| == |t| > 0
    ensures s[0] == t[0]
  {
    assert s[0] in multiset(s) && t[0] in multiset(t);
    assert s[0] in t && t[0] in s;
    var p :| 0 <= p < |t| && t[p] == s[0];
    var q :| 0 <= q < |s| && s[q] == t[0];
    if p > 0 && q > 0 {
      Asymmetric(t[0].key, t[p].key);
    }
  }

  /** bitcask_meta_encode. No entries give an empty blob; otherwise the blob is that of the entries in key
      order, unless an entry is unusable or a key occurs twice. */
  method Encode(raw: seq<RawEntry>) returns (r: Outcome)
    requires (forall i :: 0 <= i < |raw| ==> Usable(raw[i])) ==> Encodable(Converted(raw))
    ensures raw == [] ==> r == Encoded([])
    ensures r == InvalidOption <==>
              !((forall i :: 0 <= i < |raw| ==> Usable(raw[i])) && DistinctKeys(Converted(raw)))
    ensures r.Encoded? && raw != [] ==>
              exists es :: Ordered(es) && multiset(es) == multiset(Converted(raw)) && r.blob == Blob(es)
  {
    if |raw| == 0 {
      return Encoded([]);
    }
    var es: seq<Entry> := [];
    for i := 0 to |raw|
      invariant forall k :: 0 <= k < i ==> Usable(raw[k])
      invariant es == Converted(raw[..i])
    {
      if raw[i].key == None || raw[i].value == None {
        return InvalidOption;
      }
      es := es + [Entry(raw[i].key.value, raw[i].value.value)];
    }
    assert raw[..|raw|] == raw;
    r := EncodeUsable(es);
  }

  method EncodeUsable(es: seq<Entry>) returns (r: Outcome)
    requires Encodable(es) && es != []
    ensures r == InvalidOption <==> !DistinctKeys(es)
    ensures r.Encoded? ==> exists s :: Ordered(s) && multiset(s) == multiset(es) && r.blob == Blob(s)
  {
    var s := SortByKey(es);
    EncodableUnderReordering(es, s);
    var dup := HasDuplicate(s);
    if dup {
      if DistinctKeys(es) {
        DistinctUnderReordering(es, s);
      }
      return InvalidOption;
    }
    OrderedIsDistinct(s);
    DistinctUnderReordering(s, es);
    var blob, n := MetaCodec.EncodeMeta([], s);
    assert [] + Blob(s) == Blob(s);
    return Encoded(blob);
  }

  lemma EncodableUnderReordering(s: seq<Entry>, t: seq<Entry>)
    requires multiset(s) == multiset(t) && Encodable(s)
    ensures Encodable(t)
  {
    assert |s| == |multiset(s)| == |multiset(t)| == |t|;
    forall i | 0 <= i < |t| ensures Sized(t[i]) {
      assert t[i] in multiset(t);
      assert t[i] in s;
    }
  }
}
