/**
  FieldSchema (include/bitcask/field_schema.hpp) as an object: names by id, ids by name, the write offset
  and the file it keeps. What the operating system does to a call, failures included, is a parameter.
 */
module FieldSchemas {
  import opened Bytes
  import LE = LittleEndian
  import opened SchemaFormat
  import opened SchemaRecovery
  import opened PositionedWrites

  /** field.schema on disk; empty stands for missing too. */
  class Disk {
    var file: seq<byte>

    constructor (f: seq<byte>)
      ensures file == f
    {
      file := f;
    }
  }

  class FieldSchema {
    const disk: Disk
    const sum: Checksum
    var nameToId: map<Name, nat>
    var idToName: seq<Name>
    var legacy: bool
    var validEnd: nat
    var isOpen: bool
    var woff: nat
    var persistFailed: bool

    /** Every name is mapped to the first id that has it, and nothing else is mapped. */
    ghost predicate MapOk()
      reads this`nameToId, this`idToName
    {
      && (forall n :: n in idToName ==> n in nameToId)
      && (forall n :: n in nameToId ==> nameToId[n] < |idToName| && idToName[nameToId[n]] == n
                                        && n !in idToName[..nameToId[n]])
    }

    ghost function View(): Session
      reads this
    {
      Session(idToName, isOpen, legacy, persistFailed, woff)
    }

    constructor (d: Disk, s: Checksum)
      ensures disk == d && sum == s && MapOk() && idToName == [] && !isOpen
    {
      disk, sum := d, s;
      nameToId, idToName, legacy, validEnd, isOpen, woff, persistFailed := map[], [], false, 0, false, 0, false;
    }

    /** name_to_id_.emplace (which keeps an id that is there already) and id_to_name_.push_back. */
    method AddName(name: Name)
      requires MapOk()
      modifies this`nameToId, this`idToName
      ensures MapOk() && idToName == old(idToName) + [name] && name in nameToId
      ensures name !in old(idToName) ==> nameToId[name] == |old(idToName)|
    {
      ghost var before := idToName;
      if name !in nameToId {
        nameToId := nameToId[name := |idToName|];
      }
      idToName := idToName + [name];
      forall n | n in nameToId ensures n !in idToName[..nameToId[n]] {
        assert idToName[..nameToId[n]] == before[..nameToId[n]];
      }
    }

    /** load_new_format_ and load_legacy_: the names from pos on, in what can be read of the file. */
    method LoadNames(f: seq<byte>, pos: nat, isLegacy: bool) returns (ok: bool)
      requires MapOk() && idToName == [] && pos <= |f|
      modifies this`nameToId, this`idToName, this`validEnd
      ensures ok == Parse(f, pos, isLegacy, sum).Some?
      ensures ok ==> MapOk() && Parse(f, pos, isLegacy, sum) == Some((idToName, validEnd))
    {
      validEnd := pos;
      ghost var goal := Parse(f, pos, isLegacy, sum);
      Nothing(goal);
      while true
        invariant MapOk() && pos <= validEnd <= |f|
        invariant Onto(idToName, Parse(f, validEnd, isLegacy, sum)) == goal
        decreases |f| - validEnd
      {
        var look := ReadEntry(f, validEnd, isLegacy);
        OneMore(f, validEnd, isLegacy, sum, idToName, look);
        match look
        case Cut => return true;
        case Damaged => return false;
        case Found(name, end) =>
          AddName(name);
          validEnd := end;
      }
    }

    /** One turn of the loading loop: length, name and, in the new format, checksum. */
    method ReadEntry(f: seq<byte>, at: nat, isLegacy: bool) returns (look: Look)
      requires at <= |f|
      ensures look == LookAt(f, at, isLegacy, sum)
    {
      var pos: nat := at;
      if |f| - pos < 2 {
        return Cut;
      }
      var n := LE.Get16(f, pos);
      pos := pos + 2;
      if n > 0 && |f| - pos < n as int {
        return Cut;
      }
      var name := f[pos..pos + n];
      pos := pos + n;
      if isLegacy {
        return Found(name, pos);
      }
      if |f| - pos < 4 {
        return Cut;
      }
      if LE.Get32(f, pos) != sum(f[at..pos]) {
        return Damaged;
      }
      return Found(name, pos + 4);
    }

    /** encode_entry_ and encode_legacy_entry_ */
    method Encode(name: Name, isLegacy: bool) returns (buf: seq<byte>)
      ensures buf == EntryBytes(isLegacy, name, sum)
    {
      buf := LE.Put16(|name| % 0x1_0000) + name;
      if !isLegacy {
        buf := buf + LE.Put32(sum(buf));
      }
    }

    /** upgrade_legacy_to_new_: the whole file is replaced at once or, when anything fails, not at all. */
    method Upgrade(succeeds: bool) returns (ok: bool)
      requires AllShort(idToName)
      modifies disk
      ensures ok == succeeds
      ensures disk.file == if ok then File(false, idToName, sum) else old(disk.file)
    {
      var buf := HEADER;
      for i := 0 to |idToName|
        invariant disk.file == old(disk.file)
        invariant buf == File(false, idToName[..i], sum)
      {
        var entry := Encode(idToName[i], false);
        FileNext(false, idToName, sum, i);
        buf := buf + entry;
      }
      assert idToName[..|idToName|] == idToName;
      if succeeds {
        disk.file := buf;
      }
      return succeeds;
    }

    /** append_: a positioned write at the end. Of b, `landed` bytes reach the disk if that is not all. */
    method Append(b: seq<byte>, landed: nat) returns (ok: bool)
      requires isOpen && woff == |disk.file|
      modifies disk, this`woff
      ensures ok == (landed >= |b|)
      ensures ok ==> disk.file == old(disk.file) + b && woff == old(woff) + |b|
      ensures !ok ==> disk.file == old(disk.file) + b[..landed] && woff == old(woff)
    {
      if landed < |b| {
        disk.file := disk.file[..woff] + b[..landed];
        return false;
      }
      disk.file := disk.file[..woff] + b;
      woff := woff + |b|;
      return true;
    }

    method StopPersisting()
      modifies this`isOpen, this`persistFailed
      ensures !isOpen && persistFailed
    {
      isOpen, persistFailed := false, true;
    }

    /** The reading half of open. Where reading fails the file seems to end. */
    method LoadFile(env: Env) returns (ok: bool, isNew: bool)
      modifies this`nameToId, this`idToName, this`legacy, this`validEnd
      ensures ok == !Load(Read(disk.file, env), sum).Bad?
      ensures ok ==> MapOk() && isNew == Load(Read(disk.file, env), sum).Fresh?
      ensures ok ==> Load(Read(disk.file, env), sum) == if isNew then Fresh else Names(legacy, idToName, validEnd)
      ensures ok && isNew ==> idToName == [] && validEnd == 0 && !legacy
    {
      nameToId, idToName, legacy, validEnd := map[], [], false, 0;
      isNew := true;
      var f := UpTo(disk.file, env.readable);
      if f == [] {
        return true, true;
      }
      if |f| >= 4 && f[..4] == MAGIC {
        if |f| < 8 || f[4..8] != [1, 0, 0, 0] {
          return false, false;
        }
        ok := LoadNames(f, 8, false);
        return ok, false;
      }
      ok := LoadNames(f, 0, true);
      legacy := true;
      return true, false;
    }

    /** Where the rewritten file ends. */
    method UpgradedEnd() returns (end: nat)
      requires AllShort(idToName)
      ensures end == |File(false, idToName, sum)|
    {
      end := |HEADER|;
      for i := 0 to |idToName|
        invariant end == |File(false, idToName[..i], sum)|
      {
        FileNext(false, idToName, sum, i);
        EntryLength(false, idToName[i], sum);
        end := end + (2 + |idToName[i]| + 4);
      }
      assert idToName[..|idToName|] == idToName;
    }

    /** The write handle, placed behind the last complete entry; what lies behind that is cut off. */
    method OpenHandle(env: Env)
      requires validEnd <= |disk.file|
      modifies disk, this`isOpen, this`woff, this`persistFailed
      ensures !persistFailed
      ensures isOpen <==> env.canOpen && env.sizeKnown && (|old(disk.file)| == validEnd || env.truncates)
      ensures woff == if env.canOpen && env.sizeKnown then validEnd else 0
      ensures disk.file == if isOpen then old(disk.file)[..validEnd] else old(disk.file)
    {
      isOpen, woff, persistFailed := false, 0, false;
      if env.canOpen {
        if env.sizeKnown {
          woff := validEnd;
          if |disk.file| > woff {
            if !env.truncates {
              return;
            }
            disk.file := disk.file[..woff];
          }
          isOpen := true;
        }
      }
    }

    /** The rest of open when the file has content. */
    method OpenExisting(env: Env)
      requires AllShort(idToName) && validEnd <= |disk.file|
      modifies this`legacy, this`validEnd, this`isOpen, this`woff, this`persistFailed, disk
      ensures (disk.file, View()) == OpenNames(old(disk.file), old(legacy), idToName, old(validEnd), env, sum)
    {
      if legacy {
        var upgraded := Upgrade(env.upgrades);
        if upgraded {
          legacy := false;
          validEnd := UpgradedEnd();
        }
      }
      assert |disk.file| == validEnd ==> disk.file[..validEnd] == disk.file;
      OpenHandle(env);
    }

    /** The rest of open when nothing was read: no file, an empty one, or one that cannot be read. */
    method OpenEmpty(env: Env)
      requires idToName == [] && validEnd == 0 && !legacy
      modifies this`isOpen, this`woff, this`persistFailed, disk
      ensures (disk.file, View()) == OpenNew(old(disk.file), env)
    {
      OpenHandle(env);
      if isOpen {
        assert disk.file == [];
        var written := Append(HEADER, env.landed);
        assert [] + HEADER == HEADER && (!written ==> [] + HEADER[..env.landed] == HEADER[..env.landed]);
        if !written {
          StopPersisting();
        }
      }
    }

    method Open(env: Env) returns (ok: bool)
      modifies this, disk
      ensures ok <==> AfterOpen(old(disk.file), env, sum).Some?
      ensures ok ==> MapOk() && AfterOpen(old(disk.file), env, sum) == Some((disk.file, View()))
      ensures !ok ==> disk.file == old(disk.file)
    {
      var isNew;
      ok, isNew := LoadFile(env);
      if !ok {
        return;
      }
      if isNew {
        OpenEmpty(env);
      } else {
        OpenExisting(env);
      }
    }

    /** intern, with `landed` bytes of the entry reaching the disk if not all of them do. */
    method Intern(name: Name, landed: nat) returns (id: nat)
      requires MapOk() && (isOpen ==> woff == |disk.file|)
      modifies this, disk
      ensures MapOk() && (disk.file, View()) == AfterIntern(old(disk.file), old(View()), name, landed, sum)
      ensures id < |idToName| && idToName[id] == name && name !in idToName[..id]
    {
      if name in nameToId {
        return nameToId[name];
      }
      id := |idToName|;
      InternNew(name, landed);
    }

    method InternNew(name: Name, landed: nat)
      requires MapOk() && name !in nameToId && (isOpen ==> woff == |disk.file|)
      modifies this, disk
      ensures MapOk() && idToName == old(idToName) + [name]
      ensures (disk.file, View()) == AfterIntern(old(disk.file), old(View()), name, landed, sum)
    {
      if isOpen {
        Persist(name, landed);
      }
      AddName(name);
    }

    /** The entry is written, or writing stops for good. */
    method Persist(name: Name, landed: nat)
      requires isOpen && woff == |disk.file|
      modifies disk, this`woff, this`isOpen, this`persistFailed
      ensures var e := EntryBytes(legacy, name, sum);
              if landed >= |e|
              then disk.file == old(disk.file) + e && woff == old(woff) + |e| && isOpen
                   && persistFailed == old(persistFailed)
              else disk.file == old(disk.file) + e[..landed] && woff == old(woff) && !isOpen && persistFailed
    {
      var buf := Encode(name, legacy);
      var written := Append(buf, landed);
      if !written {
        StopPersisting();
      }
    }

    method NameOf(id: nat) returns (name: Option<Name>)
      ensures name == if id < |idToName| then Some(idToName[id]) else None
    {
      if id >= |idToName| {
        return None;
      }
      return Some(idToName[id]);
    }
  }

  ghost function Onto(front: seq<Name>, rest: Option<(seq<Name>, nat)>): Option<(seq<Name>, nat)> {
    match rest
    case None => None
    case Some((names, end)) => Some((front + names, end))
  }

  lemma Nothing(r: Option<(seq<Name>, nat)>)
    ensures Onto([], r) == r
  {
    if r.Some? {
      assert [] + r.value.0 == r.value.0;
    }
  }

  lemma OneMore(f: seq<byte>, pos: nat, legacy: bool, sum: Checksum, front: seq<Name>, look: Look)
    requires pos <= |f| && look == LookAt(f, pos, legacy, sum)
    ensures look.Cut? ==> Onto(front, Parse(f, pos, legacy, sum)) == Some((front, pos))
    ensures look.Damaged? ==> Parse(f, pos, legacy, sum) == None
    ensures look.Found? ==>
              Onto(front, Parse(f, pos, legacy, sum)) == Onto(front + [look.name], Parse(f, look.end, legacy, sum))
  {
    if look.Cut? {
      ParseStops(f, pos, legacy, sum);
      assert front + [] == front;
    } else if look.Found? && Parse(f, look.end, legacy, sum).Some? {
      var (names, last) := Parse(f, look.end, legacy, sum).value;
      ParseGoesOn(f, pos, legacy, sum, look.name, look.end, names, last);
      assert front + ([look.name] + names) == (front + [look.name]) + names;
    }
  }
}
