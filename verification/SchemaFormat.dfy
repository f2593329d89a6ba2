/**
  The field-name file (include/bitcask/field_schema.hpp): a header and one checksummed entry per name, or,
  in files of older versions, bare entries and no header. Ids are positions. What a file cut at any byte
  still parses to. The checksum is any function of the bytes; the store uses CRC-32.
 */
module SchemaFormat {
  import opened Bytes
  import LE = LittleEndian

  type Name = seq<byte>

  type Checksum = seq<byte> -> uint32

  const MAGIC: seq<byte> := [0x48, 0x43, 0x53, 0x46]
  const HEADER: seq<byte> := [0x48, 0x43, 0x53, 0x46, 1, 0, 0, 0]

  /** The header is the magic number and the version, lowest byte first. */
  lemma HeaderBytes()
    ensures HEADER == LE.Put32(0x4653_4348) + LE.Put32(1) && MAGIC == LE.Put32(0x4653_4348)
  {
  }

  predicate Short(name: Name) {
    |name| < 0x1_0000
  }

  ghost predicate AllShort(names: seq<Name>) {
    forall i :: 0 <= i < |names| ==> Short(names[i])
  }

  /** Length, of which only sixteen bits are kept, and name: the part that the checksum covers. */
  function Covered(name: Name): seq<byte> {
    LE.Put16(|name| % 0x1_0000) + name
  }

  function EntryBytes(legacy: bool, name: Name, sum: Checksum): seq<byte> {
    if legacy then Covered(name) else Covered(name) + LE.Put32(sum(Covered(name)))
  }

  function EntrySize(legacy: bool, name: Name): nat {
    if legacy then 2 + |name| else 2 + |name| + 4
  }

  function Start(legacy: bool): seq<byte> {
    if legacy then [] else HEADER
  }

  ghost function File(legacy: bool, names: seq<Name>, sum: Checksum): seq<byte>
    requires AllShort(names)
    decreases |names|, 1
  {
    if names == [] then Start(legacy) else FileSnoc(legacy, names, sum)
  }

  ghost function FileSnoc(legacy: bool, names: seq<Name>, sum: Checksum): seq<byte>
    requires AllShort(names) && names != []
    decreases |names|, 0
  {
    var n := |names| - 1;
    assert AllShort(names[..n]);
    File(legacy, names[..n], sum) + EntryBytes(legacy, names[n], sum)
  }

  // ---------------------------------------------------------------------------------------
  // Parsing
  // ---------------------------------------------------------------------------------------

  /** The first complete entry from pos on: its name and where it ends; Cut when the file ends first. */
  datatype Look = Cut | Damaged | Found(name: Name, end: nat)

  function LookAt(f: seq<byte>, pos: nat, legacy: bool, sum: Checksum): (r: Look)
    requires pos <= |f|
    ensures r.Found? ==> pos < r.end <= |f| && Short(r.name) && r.end == pos + EntrySize(legacy, r.name)
  {
    if |f| - pos < 2 then Cut
    else
      var n := LE.Get16(f, pos);
      if |f| - pos - 2 < n as int then Cut
      else if legacy then Found(f[pos + 2..pos + 2 + n], pos + 2 + n)
      else if |f| - pos - 2 - n < 4 then Cut
      else if LE.Get32(f, pos + 2 + n) != sum(f[pos..pos + 2 + n]) then Damaged
      else Found(f[pos + 2..pos + 2 + n], pos + 2 + n + 4)
  }

  /** All names from pos on and the end of the last complete entry; none for a complete entry whose
      checksum is wrong. */
  function Parse(f: seq<byte>, pos: nat, legacy: bool, sum: Checksum): (r: Option<(seq<Name>, nat)>)
    requires pos <= |f|
    ensures legacy ==> r.Some?
    ensures r.Some? ==> pos <= r.value.1 <= |f|
    decreases |f| - pos, 1
  {
    ParseAfter(f, pos, LookAt(f, pos, legacy, sum), legacy, sum)
  }

  function ParseAfter(f: seq<byte>, pos: nat, look: Look, legacy: bool, sum: Checksum): (r: Option<(seq<Name>, nat)>)
    requires pos <= |f| && look == LookAt(f, pos, legacy, sum)
    ensures legacy ==> r.Some?
    ensures r.Some? ==> pos <= r.value.1 <= |f|
    decreases |f| - pos, 0
  {
    match look
    case Cut => Some(([], pos))
    case Damaged => None
    case Found(name, end) =>
      match Parse(f, end, legacy, sum)
      case None => None
      case Some((names, last)) => Some(([name] + names, last))
  }

  lemma {:induction false} ParseShort(f: seq<byte>, pos: nat, legacy: bool, sum: Checksum)
    requires pos <= |f|
    ensures Parse(f, pos, legacy, sum).Some? ==> AllShort(Parse(f, pos, legacy, sum).value.0)
    decreases |f| - pos
  {
    var look := LookAt(f, pos, legacy, sum);
    if look.Found? {
      ParseShort(f, look.end, legacy, sum);
    }
  }

  lemma ParseStops(f: seq<byte>, pos: nat, legacy: bool, sum: Checksum)
    requires pos <= |f| && LookAt(f, pos, legacy, sum) == Cut
    ensures Parse(f, pos, legacy, sum) == Some(([], pos))
  {
  }

  lemma ParseGoesOn(f: seq<byte>, pos: nat, legacy: bool, sum: Checksum, name: Name, end: nat, names: seq<Name>,
                    last: nat)
    requires pos < end <= |f| && LookAt(f, pos, legacy, sum) == Found(name, end)
    requires Parse(f, end, legacy, sum) == Some((names, last))
    ensures Parse(f, pos, legacy, sum) == Some(([name] + names, last))
  {
  }

  // ---------------------------------------------------------------------------------------
  // A file cut anywhere
  // ---------------------------------------------------------------------------------------

  lemma FileNext(legacy: bool, names: seq<Name>, sum: Checksum, i: nat)
    requires AllShort(names) && i < |names|
    ensures File(legacy, names[..i + 1], sum) == File(legacy, names[..i], sum) + EntryBytes(legacy, names[i], sum)
  {
    assert names[..i + 1][..i] == names[..i];
  }

  lemma EntryLength(legacy: bool, name: Name, sum: Checksum)
    requires Short(name)
    ensures |EntryBytes(legacy, name, sum)| == EntrySize(legacy, name)
  {
  }

  lemma {:induction false} FilePrefix(legacy: bool, names: seq<Name>, sum: Checksum, i: nat)
    requires AllShort(names) && i <= |names|
    ensures File(legacy, names[..i], sum) <= File(legacy, names, sum)
    decreases |names| - i
  {
    if i < |names| {
      FileNext(legacy, names, sum, i);
      FilePrefix(legacy, names, sum, i + 1);
    } else {
      assert names[..i] == names;
    }
  }

  lemma Within(f: seq<byte>, pos: nat, e: seq<byte>, a: nat, b: nat)
    requires pos + |e| <= |f| && f[pos..pos + |e|] == e && a <= b <= |e|
    ensures f[pos + a..pos + b] == e[a..b]
  {
    forall k | 0 <= k < b - a ensures f[pos + a..pos + b][k] == e[a..b][k] {
      assert e[a + k] == f[pos..pos + |e|][a + k];
    }
  }

  /** A complete entry is found. */
  lemma FindWhole(f: seq<byte>, pos: nat, legacy: bool, sum: Checksum, name: Name, e: seq<byte>)
    requires Short(name) && e == EntryBytes(legacy, name, sum)
    requires pos + |e| <= |f| && f[pos..pos + |e|] == e
    ensures LookAt(f, pos, legacy, sum) == Found(name, pos + |e|)
  {
    var n, c := |name|, Covered(name);
    Within(f, pos, e, 0, 2);
    Within(f, pos, e, 2, 2 + n);
    Within(f, pos, e, 0, 2 + n);
    assert e[0..2] == LE.Put16(n) && e[2..2 + n] == name && e[0..2 + n] == c;
    LE.GetPut16(n, f, pos);
    if !legacy {
      Within(f, pos, e, 2 + n, 2 + n + 4);
      assert e[2 + n..2 + n + 4] == LE.Put32(sum(c));
      LE.GetPut32(sum(c), f, pos + 2 + n);
    }
  }

  /** Part of an entry is nothing. */
  lemma FindPart(f: seq<byte>, pos: nat, legacy: bool, sum: Checksum, name: Name, e: seq<byte>)
    requires Short(name) && e == EntryBytes(legacy, name, sum)
    requires pos <= |f| < pos + |e| && f[pos..] <= e
    ensures LookAt(f, pos, legacy, sum) == Cut
  {
    if |f| - pos >= 2 {
      assert f[pos..pos + 2] == e[..2] == LE.Put16(|name|);
      LE.GetPut16(|name|, f, pos);
    }
  }

  /** An entry is read back as the name that it was written for exactly if the name's length fits its sixteen bits. */
  lemma EntryReadsBack(f: seq<byte>, pos: nat, legacy: bool, sum: Checksum, name: Name, e: seq<byte>)
    requires e == EntryBytes(legacy, name, sum) && pos + |e| <= |f| && f[pos..pos + |e|] == e
    ensures LookAt(f, pos, legacy, sum) == Found(name, pos + |e|) <==> Short(name)
  {
    if Short(name) {
      FindWhole(f, pos, legacy, sum, name, e);
    }
  }

  /** The entries that lie completely inside the first len bytes. */
  ghost function Whole(legacy: bool, names: seq<Name>, sum: Checksum, len: nat): (k: nat)
    requires AllShort(names) && len >= |Start(legacy)|
    ensures k <= |names|
    decreases |names|
  {
    if |File(legacy, names, sum)| <= len then |names|
    else
      assert names != [];
      assert AllShort(names[..|names| - 1]);
      Whole(legacy, names[..|names| - 1], sum, len)
  }

  lemma WholeShorter(legacy: bool, names: seq<Name>, sum: Checksum, len: nat, shorter: seq<Name>)
    requires AllShort(names) && len >= |Start(legacy)| && |File(legacy, names, sum)| > len
    requires names != [] ==> shorter == names[..|names| - 1]
    ensures names != [] && Whole(legacy, names, sum, len) == Whole(legacy, shorter, sum, len)
  {
  }

  lemma LongerThan(legacy: bool, names: seq<Name>, sum: Checksum, len: nat, k: nat)
    requires AllShort(names) && k < |names| && len < |File(legacy, names[..k + 1], sum)|
    ensures len < |File(legacy, names, sum)|
  {
    FilePrefix(legacy, names, sum, k + 1);
  }

  lemma {:induction false} WholeIs(legacy: bool, names: seq<Name>, sum: Checksum, len: nat, k: nat)
    requires AllShort(names) && len >= |Start(legacy)| && k <= |names|
    requires |File(legacy, names[..k], sum)| <= len
    requires k < |names| ==> len < |File(legacy, names[..k + 1], sum)|
    ensures Whole(legacy, names, sum, len) == k
    decreases |names|
  {
    if k == |names| {
      assert names[..k] == names;
    } else {
      LongerThan(legacy, names, sum, len, k);
      var shorter := names[..|names| - 1];
      SameBeginnings(names, shorter, k);
      WholeShorter(legacy, names, sum, len, shorter);
      WholeIs(legacy, shorter, sum, len, k);
    }
  }

  /** The other way round: where the complete entries end. */
  lemma {:induction false} WholeEnds(legacy: bool, names: seq<Name>, sum: Checksum, len: nat, k: nat)
    requires AllShort(names) && len >= |Start(legacy)| && k == Whole(legacy, names, sum, len)
    ensures |File(legacy, names[..k], sum)| <= len
    ensures k < |names| ==> len < |File(legacy, names[..k + 1], sum)|
    decreases |names|
  {
    if |File(legacy, names, sum)| <= len {
      assert names[..k] == names;
    } else {
      var shorter := names[..|names| - 1];
      WholeShorter(legacy, names, sum, len, shorter);
      SameBeginnings(names, shorter, k);
      WholeEnds(legacy, shorter, sum, len, k);
      if k == |shorter| {
        assert names[..k + 1] == names;
      }
    }
  }

  lemma SameBeginnings(names: seq<Name>, shorter: seq<Name>, k: nat)
    requires AllShort(names) && names != [] && shorter == names[..|names| - 1] && k <= |shorter|
    ensures AllShort(shorter) && shorter[..k] == names[..k] && (k < |shorter| ==> shorter[..k + 1] == names[..k + 1])
  {
  }

  lemma StartsWithStart(legacy: bool, names: seq<Name>, sum: Checksum)
    requires AllShort(names)
    ensures |File(legacy, names, sum)| >= |Start(legacy)|
  {
    FilePrefix(legacy, names, sum, 0);
    assert names[..0] == [];
  }

  /** Where entry i lies in a file. */
  lemma Layout(legacy: bool, names: seq<Name>, sum: Checksum, i: nat, whole: seq<byte>, front: seq<byte>, e: seq<byte>)
    requires AllShort(names) && i < |names| && whole == File(legacy, names, sum)
    requires front == File(legacy, names[..i], sum) && e == EntryBytes(legacy, names[i], sum)
    ensures front + e == File(legacy, names[..i + 1], sum) && front + e <= whole
  {
    FileNext(legacy, names, sum, i);
    FilePrefix(legacy, names, sum, i + 1);
  }

  /** The file ends inside entry i. */
  lemma ParseLast(f: seq<byte>, legacy: bool, sum: Checksum, whole: seq<byte>, front: seq<byte>, name: Name,
                  e: seq<byte>)
    requires Short(name) && e == EntryBytes(legacy, name, sum)
    requires f <= whole && front + e <= whole && |front| <= |f| < |front| + |e|
    ensures LookAt(f, |front|, legacy, sum) == Cut
  {
    assert (front + e)[|front|..] == e;
    CutInside(f, whole, |front|, e);
    FindPart(f, |front|, legacy, sum, name, e);
  }

  lemma ParseNext(f: seq<byte>, legacy: bool, sum: Checksum, whole: seq<byte>, front: seq<byte>, name: Name,
                  e: seq<byte>)
    requires Short(name) && e == EntryBytes(legacy, name, sum)
    requires f <= whole && front + e <= whole && |front| + |e| <= |f|
    ensures LookAt(f, |front|, legacy, sum) == Found(name, |front| + |e|)
  {
    assert (front + e)[|front|..] == e;
    NotCut(f, whole, |front|, e);
    FindWhole(f, |front|, legacy, sum, name, e);
  }

  /** What ParseCut claims about the names from i on. */
  ghost predicate ParsesTo(f: seq<byte>, pos: nat, legacy: bool, names: seq<Name>, sum: Checksum, i: nat, k: nat)
    requires pos <= |f| && AllShort(names)
  {
    i <= k <= |names| && Parse(f, pos, legacy, sum) == Some((names[i..k], |File(legacy, names[..k], sum)|))
  }

  lemma StopsHere(f: seq<byte>, legacy: bool, names: seq<Name>, sum: Checksum, i: nat, k: nat, front: seq<byte>)
    requires AllShort(names) && i == k <= |names| && front == File(legacy, names[..i], sum) && |front| <= |f|
    requires LookAt(f, |front|, legacy, sum) == Cut
    ensures ParsesTo(f, |front|, legacy, names, sum, i, k)
  {
    ParseStops(f, |front|, legacy, sum);
    assert names[i..k] == [];
  }

  lemma GoesOn(f: seq<byte>, legacy: bool, names: seq<Name>, sum: Checksum, i: nat, k: nat, pos: nat, end: nat)
    requires AllShort(names) && i < |names| && pos < end <= |f|
    requires LookAt(f, pos, legacy, sum) == Found(names[i], end) && ParsesTo(f, end, legacy, names, sum, i + 1, k)
    ensures ParsesTo(f, pos, legacy, names, sum, i, k)
  {
    ParseGoesOn(f, pos, legacy, sum, names[i], end, names[i + 1..k], |File(legacy, names[..k], sum)|);
    assert names[i..k] == [names[i]] + names[i + 1..k];
  }

  lemma NothingLeft(f: seq<byte>, pos: nat, legacy: bool, sum: Checksum)
    requires pos == |f|
    ensures LookAt(f, pos, legacy, sum) == Cut
  {
  }

  lemma StopsAtEnd(f: seq<byte>, legacy: bool, names: seq<Name>, sum: Checksum, i: nat, k: nat, front: seq<byte>)
    requires AllShort(names) && i == |names| && front == File(legacy, names[..i], sum) && |f| == |front|
    requires |f| >= |Start(legacy)| && k == Whole(legacy, names, sum, |f|)
    ensures ParsesTo(f, |front|, legacy, names, sum, i, k)
  {
    WholeIs(legacy, names, sum, |f|, i);
    NothingLeft(f, |front|, legacy, sum);
    StopsHere(f, legacy, names, sum, i, k, front);
  }

  /** What lies at entry i: the entry if it is complete, nothing otherwise. */
  lemma AtEntry(f: seq<byte>, legacy: bool, names: seq<Name>, sum: Checksum, i: nat, whole: seq<byte>, front: seq<byte>)
    returns (next: seq<byte>)
    requires AllShort(names) && i < |names| && whole == File(legacy, names, sum) && f <= whole
    requires front == File(legacy, names[..i], sum) && |front| <= |f|
    ensures next == File(legacy, names[..i + 1], sum) && |front| < |next|
    ensures LookAt(f, |front|, legacy, sum) == if |f| < |next| then Cut else Found(names[i], |next|)
  {
    var e := EntryBytes(legacy, names[i], sum);
    Layout(legacy, names, sum, i, whole, front, e);
    next := front + e;
    if |f| < |next| {
      ParseLast(f, legacy, sum, whole, front, names[i], e);
    } else {
      ParseNext(f, legacy, sum, whole, front, names[i], e);
    }
  }

  /** A file that is a beginning of what was meant to be written parses to the entries that are complete,
      and the end it reports is theirs. */
  lemma {:induction false} ParseCut(f: seq<byte>, legacy: bool, names: seq<Name>, sum: Checksum, i: nat, k: nat,
                                    whole: seq<byte>, front: seq<byte>)
    requires AllShort(names) && i <= |names| && |f| >= |Start(legacy)|
    requires whole == File(legacy, names, sum) && f <= whole
    requires front == File(legacy, names[..i], sum) && |front| <= |f| && k == Whole(legacy, names, sum, |f|)
    ensures ParsesTo(f, |front|, legacy, names, sum, i, k)
    decreases |names| - i
  {
    if i == |names| {
      assert names[..i] == names;
      StopsAtEnd(f, legacy, names, sum, i, k, front);
    } else {
      var next := AtEntry(f, legacy, names, sum, i, whole, front);
      if |f| < |next| {
        WholeIs(legacy, names, sum, |f|, i);
        StopsHere(f, legacy, names, sum, i, k, front);
      } else {
        ParseCut(f, legacy, names, sum, i + 1, k, whole, next);
        GoesOn(f, legacy, names, sum, i, k, |front|, |next|);
      }
    }
  }

  lemma CutInside(f: seq<byte>, g: seq<byte>, pos: nat, e: seq<byte>)
    requires f <= g && pos + |e| <= |g| && g[pos..pos + |e|] == e && pos <= |f| < pos + |e|
    ensures f[pos..] <= e
  {
    assert f[pos..] == g[pos..|f|] == g[pos..pos + |e|][..|f| - pos];
  }

  lemma NotCut(f: seq<byte>, g: seq<byte>, pos: nat, e: seq<byte>)
    requires f <= g && pos + |e| <= |f| && g[pos..pos + |e|] == e
    ensures f[pos..pos + |e|] == e
  {
  }
}
