/**
  Field-name files that were damaged (include/bitcask/field_schema.hpp 79-104, 291-333): a complete entry whose
  checksum does not fit, or a version that is not known, makes opening fail, and the file is left as it is.
 */
module SchemaDamage {
  import opened Bytes
  import LE = LittleEndian
  import opened SchemaFormat
  import opened SchemaRecovery
  import opened PositionedWrites
  import RecordIntegrity

  /** Which bytes of an entry with a header are what. */
  lemma EntryLayout(name: Name, sum: Checksum, e: seq<byte>)
    requires Short(name) && e == EntryBytes(false, name, sum)
    ensures |e| == 2 + |name| + 4 && LE.Get16(e, 0) as int == |name| && e[2..2 + |name|] == name
    ensures LE.Get32(e, 2 + |name|) == sum(e[..2 + |name|])
  {
    var n, c := |name|, Covered(name);
    assert e[0..2] == LE.Put16(n) && e[2..2 + n] == name && e[..2 + n] == c && e[2 + n..2 + n + 4] == LE.Put32(sum(c));
    LE.GetPut16(n, e, 0);
    LE.GetPut32(sum(c), e, 2 + n);
  }

  /** An entry in which something was changed behind the length, so that the checksum does not fit. */
  ghost predicate Spoiled(e: seq<byte>, d: seq<byte>, sum: Checksum) {
    && |d| == |e| >= 6 && d[..2] == e[..2]
    && sum(d[..|d| - 4]) != LE.Get32(d, |d| - 4)
  }

  lemma SpoiledIsDamaged(f: seq<byte>, at: nat, name: Name, e: seq<byte>, d: seq<byte>, sum: Checksum)
    requires Short(name) && e == EntryBytes(false, name, sum) && Spoiled(e, d, sum)
    requires at + |d| <= |f| && f[at..at + |d|] == d
    ensures LookAt(f, at, false, sum) == Damaged
  {
    var n := |name|;
    EntryLayout(name, sum, e);
    Within(f, at, d, 0, 2);
    Within(f, at, d, 0, 2 + n);
    Within(f, at, d, 2 + n, 2 + n + 4);
    assert d[0..2] == e[0..2] && d[0..2 + n] == d[..|d| - 4];
  }

  /** Entries in front of a damaged one do not help. */
  lemma {:induction false} ParseStopsThere(f: seq<byte>, names: seq<Name>, i: nat, whole: seq<byte>, front: seq<byte>,
                                           sum: Checksum)
    requires AllShort(names) && i <= |names| && whole == File(false, names, sum) && whole <= f
    requires front == File(false, names[..i], sum) && LookAt(f, |whole|, false, sum) == Damaged
    ensures |front| <= |f| && Parse(f, |front|, false, sum) == None
    decreases |names| - i
  {
    FilePrefix(false, names, sum, i);
    if i == |names| {
      assert names[..i] == names;
    } else {
      var e := EntryBytes(false, names[i], sum);
      Layout(false, names, sum, i, whole, front, e);
      var next := front + e;
      SameLook(f, whole, front, names[i], next, sum);
      ParseStopsThere(f, names, i + 1, whole, next, sum);
    }
  }

  lemma SameLook(f: seq<byte>, whole: seq<byte>, front: seq<byte>, name: Name, next: seq<byte>, sum: Checksum)
    requires whole <= f && front <= next <= whole && Short(name) && |front| < |next|
    requires next == front + EntryBytes(false, name, sum)
    ensures LookAt(f, |front|, false, sum) == Found(name, |next|)
  {
    var e := EntryBytes(false, name, sum);
    assert next == f[..|next|];
    assert f[|front|..|front| + |e|] == e;
    FindWhole(f, |front|, false, sum, name, e);
  }

  /** What can be read of the file: intact entries, a damaged one, and whatever stands behind it. */
  lemma LoadRefuses(f: seq<byte>, names: seq<Name>, name: Name, e: seq<byte>, d: seq<byte>, sum: Checksum)
    requires AllShort(names) && Short(name) && e == EntryBytes(false, name, sum) && Spoiled(e, d, sum)
    requires File(false, names, sum) + d <= f
    ensures Load(f, sum) == Bad
  {
    var whole := File(false, names, sum);
    assert (whole + d)[|whole|..] == d;
    SpoiledIsDamaged(f, |whole|, name, e, d, sum);
    FilePrefix(false, names, sum, 0);
    assert names[..0] == [];
    ParseStopsThere(f, names, 0, whole, HEADER, sum);
    assert HEADER <= f;
    assert f[..4] == HEADER[..4] && f[4..8] == HEADER[4..8];
  }

  lemma StillRead(f: seq<byte>, front: seq<byte>, env: Env)
    requires front <= f && env.readable >= |front|
    ensures front <= Read(f, env)
  {
  }

  /** A complete entry that was damaged behind its length is refused as soon as it is read, whatever else is in the file
      and whatever the system lets an open do. */
  lemma DamagedEntryIsRefused(f: seq<byte>, names: seq<Name>, name: Name, e: seq<byte>, d: seq<byte>, env: Env,
                              sum: Checksum)
    requires AllShort(names) && Short(name) && e == EntryBytes(false, name, sum) && Spoiled(e, d, sum)
    requires File(false, names, sum) + d <= f && env.readable >= |File(false, names, sum)| + |d|
    ensures AfterOpen(f, env, sum) == None
  {
    StillRead(f, File(false, names, sum) + d, env);
    LoadRefuses(Read(f, env), names, name, e, d, sum);
  }

  /** With the checksum that the store uses, any change of up to four neighbouring bytes of an entry, all in the name or
      all in the checksum, is such damage. */
  lemma FourBytesAreRefused(f: seq<byte>, names: seq<Name>, name: Name, e: seq<byte>, d: seq<byte>, at: nat, end: nat,
                            env: Env)
    requires AllShort(names) && Short(name) && e == EntryBytes(false, name, RecordIntegrity.StoreSum)
    requires |d| == |e| && at <= end <= |e| && end <= at + 4 && d[..at] == e[..at] && d[end..] == e[end..] && d != e
    requires (2 <= at && end <= 2 + |name|) || 2 + |name| <= at
    requires File(false, names, RecordIntegrity.StoreSum) + d <= f
    requires env.readable >= |File(false, names, RecordIntegrity.StoreSum)| + |d|
    ensures AfterOpen(f, env, RecordIntegrity.StoreSum) == None
  {
    FourBytesSpoil(name, e, d, at, end);
    DamagedEntryIsRefused(f, names, name, e, d, env, RecordIntegrity.StoreSum);
  }

  lemma FourBytesSpoil(name: Name, e: seq<byte>, d: seq<byte>, at: nat, end: nat)
    requires Short(name) && e == EntryBytes(false, name, RecordIntegrity.StoreSum)
    requires |d| == |e| && at <= end <= |e| && end <= at + 4 && d[..at] == e[..at] && d[end..] == e[end..] && d != e
    requires (2 <= at && end <= 2 + |name|) || 2 + |name| <= at
    ensures Spoiled(e, d, RecordIntegrity.StoreSum)
  {
    var n := 2 + |name|;
    EntryLayout(name, RecordIntegrity.StoreSum, e);
    assert d[..2] == d[..at][..2] && e[..2] == e[..at][..2];
    assert e == e[..n] + e[n..] && d == d[..n] + d[n..];
    if n <= at {
      assert d[..n] == d[..at][..n] && e[..n] == e[..at][..n];
      LE.PutGet(d[n..n + 4]);
      LE.PutGet(e[n..n + 4]);
      assert d[n..n + 4] == d[n..] && e[n..n + 4] == e[n..];
    } else {
      NameChanged(e, d, at, end, n);
      RecordIntegrity.SumTells(e[..n], d[..n], at, end);
    }
  }

  lemma NameChanged(e: seq<byte>, d: seq<byte>, at: nat, end: nat, n: nat)
    requires |d| == |e| == n + 4 && at <= end <= n && d[..at] == e[..at] && d[end..] == e[end..] && d != e
    ensures e[..n][..at] == d[..n][..at] && e[..n][end..] == d[..n][end..] && e[..n] != d[..n]
    ensures LE.Get32(d, n) == LE.Get32(e, n)
  {
    assert e[n..] == e[end..][n - end..] && d[n..] == d[end..][n - end..];
    assert e[..n][end..] == e[end..][..n - end] && d[..n][end..] == d[end..][..n - end];
    assert e[..n][..at] == e[..at] && d[..n][..at] == d[..at];
    assert e == e[..n] + e[n..] && d == d[..n] + d[n..];
    assert e[n..n + 4] == e[n..] && d[n..n + 4] == d[n..];
  }

  /** A file with the magic number and another version is refused. */
  lemma OtherVersionIsRefused(f: seq<byte>, env: Env, sum: Checksum)
    requires |f| >= 8 && f[..4] == MAGIC && LE.Get32(f, 4) != 1 && env.readable >= 8
    ensures AfterOpen(f, env, sum) == None
  {
    var g := Read(f, env);
    assert g[..4] == f[..4] && g[4..8] == f[4..8];
    HeaderBytes();
    LE.Widths();
    LE.GetPut(1, 4);
    assert LE.Put32(1) == [1, 0, 0, 0];
  }
}
