/**
  PostingList (include/bitcask/inverted.hpp): parallel columns with positions flattened and their offsets
  made only when first needed, blocks sealed as rows arrive, and compaction in place.
 */
module PostingLists {
  import opened Bytes
  import opened PostingRows

  ghost predicate RowsMatch(ords: seq<uint64>, tfs: seq<uint32>, dls: seq<uint32>, rows: seq<Row>) {
    && |ords| == |tfs| == |dls| == |rows|
    && forall i :: 0 <= i < |rows| ==> ords[i] == rows[i].ord && tfs[i] == rows[i].tf && dls[i] == rows[i].dl
  }

  /** Either no offsets and no positions anywhere, or one offset per row and one more. */
  ghost predicate PositionsMatch(data: seq<uint32>, off: seq<nat>, rows: seq<Row>) {
    if off == [] then data == [] && forall i :: 0 <= i < |rows| ==> rows[i].positions == []
    else |off| == |rows| + 1 && data == Flat(rows) && forall i :: 0 <= i <= |rows| ==> off[i] == |Flat(rows[..i])|
  }

  /** pos_off ascends from 0 to the number of positions. */
  lemma OffsetsAscend(data: seq<uint32>, off: seq<nat>, rows: seq<Row>, i: nat, j: nat)
    requires PositionsMatch(data, off, rows) && off != [] && i <= j <= |rows|
    ensures off[0] == 0 && off[i] <= off[j] && off[|rows|] == |data|
  {
    FlatPrefix(rows[..j], i);
    assert rows[..j][..i] == rows[..i];
    assert rows[..|rows|] == rows;
  }

  lemma {:induction false} NoPositions(rows: seq<Row>)
    requires forall i :: 0 <= i < |rows| ==> rows[i].positions == []
    ensures Flat(rows) == []
    decreases |rows|
  {
    if rows != [] {
      NoPositions(rows[..|rows| - 1]);
    }
  }

  /** Making the offsets: one zero per row so far and one more. */
  lemma Materialise(rows: seq<Row>, off: seq<nat>)
    requires PositionsMatch([], [], rows)
    requires |off| == |rows| + 1 && forall i :: 0 <= i < |off| ==> off[i] == 0
    ensures PositionsMatch([], off, rows)
  {
    NoPositions(rows);
    forall i | 0 <= i <= |rows| ensures off[i] == |Flat(rows[..i])| {
      NoPositions(rows[..i]);
    }
  }

  lemma AppendPositions(data: seq<uint32>, off: seq<nat>, rows: seq<Row>, row: Row, end: nat)
    requires PositionsMatch(data, off, rows) && off != [] && end == |data + row.positions|
    ensures PositionsMatch(data + row.positions, off + [end], rows + [row])
  {
    var all := rows + [row];
    assert all[..|rows|] == rows;
    forall i | 0 <= i <= |all| ensures (off + [end])[i] == |Flat(all[..i])| {
      if i <= |rows| {
        assert all[..i] == rows[..i];
      } else {
        assert all[..i] == all;
      }
    }
  }

  lemma AppendNoPositions(rows: seq<Row>, row: Row)
    requires PositionsMatch([], [], rows) && row.positions == []
    ensures PositionsMatch([], [], rows + [row])
  {
  }

  lemma DerivedStays(blocks: seq<Block>, ords: seq<uint64>, tfs: seq<uint32>, dls: seq<uint32>, maxTf: uint32,
                     row: Row, n: nat)
    requires |ords| == |tfs| == |dls| == n && Sealed(blocks, ords, tfs, dls, n) && maxTf == Max(tfs[..n])
    ensures Sealed(blocks, ords + [row.ord], tfs + [row.tf], dls + [row.dl], n)
    ensures maxTf == Max((tfs + [row.tf])[..n])
  {
    SealedStays(blocks, ords, tfs, dls, n, row);
    assert (tfs + [row.tf])[..n] == tfs[..n];
  }

  /** Only a partial block counts fewer than 128 rows, and only the last block is partial. */
  lemma WithoutPartial(blocks: seq<Block>, ords: seq<uint64>, tfs: seq<uint32>, dls: seq<uint32>, n: nat)
    requires |ords| == |tfs| == |dls| && n <= |ords| && Sealed(blocks, ords, tfs, dls, n)
    ensures if |blocks| != 0 && blocks[|blocks| - 1].count < BLOCK
            then SomeBlocks(blocks[..|blocks| - 1], ords, tfs, dls)
            else SomeBlocks(blocks, ords, tfs, dls)
  {
    var m := |blocks| - 1;
    if |blocks| != 0 && blocks[m].count == BLOCK && AllBlocks(blocks, ords, tfs, dls, n) {
      OneMoreBlock(blocks[..m], ords, tfs, dls, blocks[m]);
      assert blocks == blocks[..m] + [blocks[m]];
    }
  }

  lemma AppendRow(ords: seq<uint64>, tfs: seq<uint32>, dls: seq<uint32>, rows: seq<Row>, row: Row)
    requires RowsMatch(ords, tfs, dls, rows) && Ascending(rows)
    requires rows != [] ==> rows[|rows| - 1].ord < row.ord
    ensures RowsMatch(ords + [row.ord], tfs + [row.tf], dls + [row.dl], rows + [row]) && Ascending(rows + [row])
  {
  }

  // ---------------------------------------------------------------------------------------
  // Halfway through a compaction
  // ---------------------------------------------------------------------------------------

  /** The columns begin with the rows kept so far and from row i on are as they were. */
  ghost predicate RowsMoved(ords: seq<uint64>, tfs: seq<uint32>, dls: seq<uint32>, rows: seq<Row>, i: nat,
                            kept: seq<Row>)
    requires |kept| <= i <= |rows|
  {
    && |ords| == |tfs| == |dls| == |rows|
    && (forall k :: 0 <= k < |kept| ==> ords[k] == kept[k].ord && tfs[k] == kept[k].tf && dls[k] == kept[k].dl)
    && (forall k :: i <= k < |rows| ==> ords[k] == rows[k].ord && tfs[k] == rows[k].tf && dls[k] == rows[k].dl)
  }

  /** The same for the positions: wpos of them are in place, those from row i on have not moved. */
  ghost predicate PositionsMoved(data: seq<uint32>, off: seq<nat>, rows: seq<Row>, i: nat, kept: seq<Row>, wpos: nat)
    requires |kept| <= i <= |rows|
  {
    && |off| == |rows| + 1 && |data| == |Flat(rows)|
    && wpos == |Flat(kept)| <= |Flat(rows[..i])| <= |data|
    && data[..wpos] == Flat(kept)
    && data[|Flat(rows[..i])|..] == Flat(rows)[|Flat(rows[..i])|..]
    && (forall k :: 0 <= k < |kept| ==> off[k] == |Flat(kept[..k])|)
    && (forall k :: i <= k <= |rows| ==> off[k] == |Flat(rows[..k])|)
  }

  lemma MoveRow(ords: seq<uint64>, tfs: seq<uint32>, dls: seq<uint32>, rows: seq<Row>, i: nat, kept: seq<Row>, w: nat)
    requires w == |kept| <= i < |rows| && RowsMoved(ords, tfs, dls, rows, i, kept)
    ensures RowsMoved(ords[w := ords[i]], tfs[w := tfs[i]], dls[w := dls[i]], rows, i + 1, kept + [rows[i]])
  {
  }

  lemma SkipRow(ords: seq<uint64>, tfs: seq<uint32>, dls: seq<uint32>, rows: seq<Row>, i: nat, kept: seq<Row>)
    requires |kept| <= i < |rows| && RowsMoved(ords, tfs, dls, rows, i, kept)
    ensures RowsMoved(ords, tfs, dls, rows, i + 1, kept)
  {
  }

  lemma FlatBounds(rows: seq<Row>, i: nat)
    requires i < |rows|
    ensures |Flat(rows[..i + 1])| == |Flat(rows[..i])| + |rows[i].positions|
    ensures |Flat(rows[..i + 1])| <= |Flat(rows)|
  {
    FlatNext(rows, i);
    FlatPrefix(rows, i + 1);
  }

  lemma SkipPositions(data: seq<uint32>, off: seq<nat>, rows: seq<Row>, i: nat, kept: seq<Row>, wpos: nat)
    requires |kept| <= i < |rows| && PositionsMoved(data, off, rows, i, kept, wpos)
    ensures PositionsMoved(data, off, rows, i + 1, kept, wpos)
  {
    FlatBounds(rows, i);
    var b, e := |Flat(rows[..i])|, |Flat(rows[..i + 1])|;
    assert data[e..] == data[b..][e - b..] && Flat(rows)[e..] == Flat(rows)[b..][e - b..];
  }

  lemma FlatSnoc(kept: seq<Row>, row: Row)
    ensures Flat(kept + [row]) == Flat(kept) + row.positions
  {
    assert (kept + [row])[..|kept|] == kept;
  }

  /** Moving the positions in [b, e) down to wpos. */
  lemma Copied(data: seq<uint32>, moved: seq<uint32>, wpos: nat, b: nat, e: nat)
    requires wpos <= b <= e <= |data| == |moved|
    requires forall k :: 0 <= k < wpos || e <= k < |data| ==> moved[k] == data[k]
    requires forall k :: wpos <= k < wpos + (e - b) ==> moved[k] == data[b + (k - wpos)]
    ensures moved[..wpos] == data[..wpos] && moved[e..] == data[e..]
    ensures moved[wpos..wpos + (e - b)] == data[b..e]
  {
    var there, here := moved[wpos..wpos + (e - b)], data[b..e];
    assert |there| == |here|;
    forall j | 0 <= j < |here| ensures there[j] == here[j] {
      assert moved[wpos + j] == data[b + (wpos + j - wpos)];
    }
  }

  lemma MoveData(data: seq<uint32>, moved: seq<uint32>, off: seq<nat>, rows: seq<Row>, i: nat, kept: seq<Row>,
                 wpos: nat, b: nat, e: nat)
    requires |kept| <= i < |rows| && PositionsMoved(data, off, rows, i, kept, wpos)
    requires b == |Flat(rows[..i])| && e == |Flat(rows[..i + 1])| == b + |rows[i].positions| <= |data|
    requires |moved| == |data| && moved[..wpos] == data[..wpos] && moved[e..] == data[e..]
    requires moved[wpos..wpos + (e - b)] == data[b..e]
    ensures moved[..wpos + (e - b)] == Flat(kept + [rows[i]])
    ensures moved[e..] == Flat(rows)[e..]
  {
    FlatSlice(rows, i);
    FlatSnoc(kept, rows[i]);
    assert data[b..e] == data[b..][..e - b] == Flat(rows)[b..][..e - b] == Flat(rows)[b..e];
    assert moved[..wpos + (e - b)] == moved[..wpos] + moved[wpos..wpos + (e - b)];
    assert data[e..] == data[b..][e - b..] && Flat(rows)[e..] == Flat(rows)[b..][e - b..];
  }

  lemma MoveOffset(off: seq<nat>, rows: seq<Row>, i: nat, kept: seq<Row>, w: nat)
    requires w == |kept| <= i < |rows| && |off| == |rows| + 1
    requires forall k :: 0 <= k < |kept| ==> off[k] == |Flat(kept[..k])|
    requires forall k :: i <= k <= |rows| ==> off[k] == |Flat(rows[..k])|
    ensures forall k :: 0 <= k <= |kept| ==> off[w := |Flat(kept)|][k] == |Flat((kept + [rows[i]])[..k])|
    ensures forall k :: i + 1 <= k <= |rows| ==> off[w := |Flat(kept)|][k] == |Flat(rows[..k])|
  {
    forall k | 0 <= k <= |kept| ensures off[w := |Flat(kept)|][k] == |Flat((kept + [rows[i]])[..k])| {
      assert (kept + [rows[i]])[..k] == kept[..k];
      assert kept[..|kept|] == kept;
    }
  }

  ghost predicate Moved(ords: seq<uint64>, tfs: seq<uint32>, dls: seq<uint32>, data: seq<uint32>, off: seq<nat>,
                        rows: seq<Row>, i: nat, kept: seq<Row>, wpos: nat)
    requires |kept| <= i <= |rows|
  {
    && RowsMoved(ords, tfs, dls, rows, i, kept)
    && if off == [] then data == [] else PositionsMoved(data, off, rows, i, kept, wpos)
  }

  lemma MovedAtStart(ords: seq<uint64>, tfs: seq<uint32>, dls: seq<uint32>, data: seq<uint32>, off: seq<nat>,
                     rows: seq<Row>)
    requires RowsMatch(ords, tfs, dls, rows) && PositionsMatch(data, off, rows)
    ensures Moved(ords, tfs, dls, data, off, rows, 0, [], 0)
    ensures rows[..0] == [] && Flat([]) == []
  {
  }

  lemma SkipMoved(ords: seq<uint64>, tfs: seq<uint32>, dls: seq<uint32>, data: seq<uint32>, off: seq<nat>,
                  rows: seq<Row>, i: nat, kept: seq<Row>, wpos: nat)
    requires |kept| <= i < |rows| && Moved(ords, tfs, dls, data, off, rows, i, kept, wpos)
    ensures Moved(ords, tfs, dls, data, off, rows, i + 1, kept, wpos)
  {
    SkipRow(ords, tfs, dls, rows, i, kept);
    if off != [] {
      SkipPositions(data, off, rows, i, kept, wpos);
    }
  }

  /** After the last row: what is in front is the whole list. */
  lemma Truncate(ords: seq<uint64>, tfs: seq<uint32>, dls: seq<uint32>, rows: seq<Row>, kept: seq<Row>, w: nat)
    requires w == |kept| <= |rows| && RowsMoved(ords, tfs, dls, rows, |rows|, kept)
    ensures RowsMatch(ords[..w], tfs[..w], dls[..w], kept)
  {
  }

  lemma TruncatePositions(data: seq<uint32>, off: seq<nat>, rows: seq<Row>, kept: seq<Row>, w: nat, wpos: nat)
    requires w == |kept| <= |rows| && PositionsMoved(data, off, rows, |rows|, kept, wpos)
    ensures PositionsMatch(data[..wpos], off[w := wpos][..w + 1], kept)
  {
    assert kept[..|kept|] == kept;
  }

  lemma {:induction false} LiveUnpositioned(rows: seq<Row>, live: seq<bool>)
    requires |rows| == |live| && PositionsMatch([], [], rows)
    ensures PositionsMatch([], [], Live(rows, live))
    decreases |rows|
  {
    if rows != [] {
      var n := |rows| - 1;
      LiveUnpositioned(rows[..n], live[..n]);
    }
  }

  class PostingList {
    var ords: seq<uint64>
    var tfs: seq<uint32>
    var dls: seq<uint32>
    var posData: seq<uint32>
    var posOff: seq<nat>
    var blocks: seq<Block>
    var maxTf: uint32
    ghost var rows: seq<Row>

    /** The columns hold the rows, in ascending order of ord. */
    ghost predicate ColumnsOk()
      reads this`ords, this`tfs, this`dls, this`posData, this`posOff, this`rows
    {
      RowsMatch(ords, tfs, dls, rows) && PositionsMatch(posData, posOff, rows) && Ascending(rows)
    }

    /** Blocks and max_tf are up to date for the first n rows. */
    ghost predicate Derived(n: nat)
      requires ColumnsOk() && n <= |rows|
      reads this
    {
      Sealed(blocks, ords, tfs, dls, n) && maxTf == Max(tfs[..n])
    }

    ghost predicate Valid()
      reads this
    {
      ColumnsOk() && Derived(|rows|)
    }

    constructor ()
      ensures Valid() && rows == [] && posOff == []
    {
      ords, tfs, dls, posData, posOff, blocks, maxTf, rows := [], [], [], [], [], [], 0, [];
    }

    method Positions(i: nat) returns (pos: seq<uint32>)
      requires ColumnsOk() && i < |rows|
      ensures pos == rows[i].positions
    {
      if posOff == [] {
        return [];
      }
      FlatSlice(rows, i);
      pos := posData[posOff[i]..posOff[i + 1]];
    }

    /** The position columns of a new last row. */
    method AppendPositionsOf(idx: nat, pos: seq<uint32>, ghost row: Row)
      requires pos == row.positions && idx == |rows| && PositionsMatch(posData, posOff, rows)
      modifies this`posData, this`posOff
      ensures PositionsMatch(posData, posOff, rows + [row])
      ensures posOff == [] <==> old(posOff) == [] && row.positions == []
    {
      if pos != [] && posOff == [] {
        posOff := seq(idx + 1, _ => 0);
        Materialise(rows, posOff);
      }
      if posOff != [] {
        AppendPositions(posData, posOff, rows, row, |posData + pos|);
        posData := posData + pos;
        posOff := posOff + [|posData|];
      } else {
        AppendNoPositions(rows, row);
      }
    }

    /** A new last row. Blocks and max_tf are left to NoteAppended. */
    method Append(ord: uint64, tf: uint32, dl: uint32, pos: seq<uint32>)
      requires Valid() && (rows != [] ==> rows[|rows| - 1].ord < ord)
      modifies this
      ensures ColumnsOk() && rows == old(rows) + [Row(ord, tf, dl, pos)] && Derived(old(|rows|))
      ensures posOff == [] <==> old(posOff) == [] && pos == []
    {
      ghost var row := Row(ord, tf, dl, pos);
      ghost var n := |rows|;
      DerivedStays(blocks, ords, tfs, dls, maxTf, row, n);
      AppendRow(ords, tfs, dls, rows, row);
      var idx := |ords|;
      ords, tfs, dls := ords + [ord], tfs + [tf], dls + [dl];
      AppendPositionsOf(idx, pos, row);
      rows := rows + [row];
    }

    /** The largest tf and the smallest known dl of the rows in [start, end). */
    static method ScanBlock(tfs: seq<uint32>, dls: seq<uint32>, start: nat, end: nat)
      returns (blockMaxTf: uint32, minDl: uint32)
      requires start < end <= |tfs| == |dls|
      ensures blockMaxTf == Max(tfs[start..end]) && minDl == MinDl(dls[start..end])
    {
      blockMaxTf, minDl := 0, UINT32_MAX;
      for i := start to end
        invariant blockMaxTf == Max(tfs[start..i]) && minDl == MinKnown(dls[start..i])
      {
        assert tfs[start..i + 1][..i - start] == tfs[start..i];
        assert dls[start..i + 1][..i - start] == dls[start..i];
        if tfs[i] > blockMaxTf {
          blockMaxTf := tfs[i];
        }
        if dls[i] > 0 && dls[i] < minDl {
          minDl := dls[i];
        }
      }
      if minDl == UINT32_MAX {
        minDl := 1;
      }
    }

    method PushBlock(start: nat, end: nat)
      requires start < end <= |ords| == |tfs| == |dls|
      modifies this`blocks
      ensures blocks == old(blocks) + [BlockOf(ords, tfs, dls, start, end)]
    {
      var blockMaxTf, minDl := ScanBlock(tfs, dls, start, end);
      blocks := blocks + [Block(ords[start], ords[end - 1], blockMaxTf, minDl, start, end - start)];
    }

    method RebuildBlocks()
      requires BLOCK <= |ords| == |tfs| == |dls| && blocks == []
      modifies this`blocks
      ensures AllBlocks(blocks, ords, tfs, dls, |ords|)
    {
      var n := |ords|;
      var blockCount := (n + BLOCK - 1) / BLOCK;
      for b := 0 to blockCount
        invariant |blocks| == b
        invariant if b < blockCount then SomeBlocks(blocks, ords, tfs, dls) else AllBlocks(blocks, ords, tfs, dls, n)
      {
        var start := b * BLOCK;
        var end := if start + BLOCK < n then start + BLOCK else n;
        ghost var before := blocks;
        PushBlock(start, end);
        if b + 1 < blockCount {
          OneMoreBlock(before, ords, tfs, dls, blocks[b]);
        } else {
          assert blocks[..b] == before;
        }
      }
    }

    /** All blocks anew, with a partial last one; max_tf is left alone. */
    method Finalize()
      requires Valid()
      modifies this`blocks
      ensures Valid() && AllBlocks(blocks, ords, tfs, dls, |rows|)
    {
      if |ords| == 0 {
        return;
      }
      blocks := [];
      if |ords| >= BLOCK {
        RebuildBlocks();
      }
    }

    /** Whole blocks that are not sealed yet; the rest of the rows stays unsealed. */
    method SealFullBlocks()
      requires |ords| == |tfs| == |dls| && SomeBlocks(blocks, ords, tfs, dls)
      modifies this`blocks
      ensures FullBlocks(blocks, ords, tfs, dls, |ords|)
    {
      var sealed := |blocks| * BLOCK;
      while |ords| - sealed >= BLOCK
        invariant sealed == |blocks| * BLOCK && SomeBlocks(blocks, ords, tfs, dls)
      {
        ghost var before := blocks;
        PushBlock(sealed, sealed + BLOCK);
        OneMoreBlock(before, ords, tfs, dls, blocks[|before|]);
        sealed := sealed + BLOCK;
      }
    }

    method DropPartial(ghost n: nat)
      requires n <= |ords| == |tfs| == |dls| && Sealed(blocks, ords, tfs, dls, n)
      modifies this`blocks
      ensures SomeBlocks(blocks, ords, tfs, dls)
    {
      WithoutPartial(blocks, ords, tfs, dls, n);
      if |blocks| != 0 && blocks[|blocks| - 1].count < BLOCK {
        blocks := blocks[..|blocks| - 1];
      }
    }

    /** max_tf takes in the last row. */
    method NoteTf()
      requires |tfs| != 0 ==> maxTf == Max(tfs[..|tfs| - 1])
      requires |tfs| == 0 ==> maxTf == 0
      modifies this`maxTf
      ensures maxTf == Max(tfs)
    {
      if |tfs| != 0 {
        MaxNext(tfs, |tfs| - 1);
        assert tfs[..|tfs|] == tfs;
        if tfs[|tfs| - 1] > maxTf {
          maxTf := tfs[|tfs| - 1];
        }
      }
    }

    method NoteAppended()
      requires ColumnsOk() && Derived(if rows == [] then 0 else |rows| - 1)
      modifies this`blocks, this`maxTf
      ensures Valid() && FullBlocks(blocks, ords, tfs, dls, |rows|)
    {
      NoteTf();
      DropPartial(if rows == [] then 0 else |rows| - 1);
      SealFullBlocks();
      assert tfs[..|tfs|] == tfs;
    }

    /** std::copy of the positions [b, e) to wpos, front to back. */
    method CopyPositions(b: nat, e: nat, wpos: nat)
      requires wpos <= b <= e <= |posData|
      modifies this`posData
      ensures |posData| == |old(posData)|
      ensures posData[..wpos] == old(posData)[..wpos] && posData[e..] == old(posData)[e..]
      ensures posData[wpos..wpos + (e - b)] == old(posData)[b..e]
    {
      for p := b to e
        invariant |posData| == |old(posData)|
        invariant forall k :: 0 <= k < wpos || p <= k < |posData| ==> posData[k] == old(posData)[k]
        invariant forall k :: wpos <= k < wpos + (p - b) ==> posData[k] == old(posData)[b + (k - wpos)]
      {
        posData := posData[wpos + (p - b) := posData[p]];
      }
      Copied(old(posData), posData, wpos, b, e);
    }

    /** A live row's positions and offset move down. */
    method MovePositions(i: nat, w: nat, wpos: nat, ghost kept: seq<Row>) returns (next: nat)
      requires w == |kept| <= i < |rows| && PositionsMoved(posData, posOff, rows, i, kept, wpos)
      modifies this`posData, this`posOff
      ensures PositionsMoved(posData, posOff, rows, i + 1, kept + [rows[i]], next)
      ensures w == i && wpos == |Flat(rows[..i])| ==>
                posData == old(posData) && posOff == old(posOff) && next == |Flat(rows[..i + 1])|
    {
      FlatBounds(rows, i);
      var b, e := posOff[i], posOff[i + 1];
      ghost var data := posData;
      if wpos != b {
        CopyPositions(b, e, wpos);
      }
      MoveData(data, posData, posOff, rows, i, kept, wpos, b, e);
      MoveOffset(posOff, rows, i, kept, w);
      posOff := posOff[w := wpos];
      next := wpos + (e - b);
      FlatSnoc(kept, rows[i]);
    }

    /** A live row moves down to place w. */
    method MoveColumns(i: nat, w: nat, ghost kept: seq<Row>)
      requires w == |kept| <= i < |rows| && RowsMoved(ords, tfs, dls, rows, i, kept)
      modifies this`ords, this`tfs, this`dls
      ensures RowsMoved(ords, tfs, dls, rows, i + 1, kept + [rows[i]])
      ensures w == i ==> ords == old(ords) && tfs == old(tfs) && dls == old(dls)
    {
      MoveRow(ords, tfs, dls, rows, i, kept, w);
      if w != i {
        ords := ords[w := ords[i]];
        tfs := tfs[w := tfs[i]];
        dls := dls[w := dls[i]];
      } else {
        assert ords[w := ords[i]] == ords && tfs[w := tfs[i]] == tfs && dls[w := dls[i]] == dls;
      }
    }

    /** A live row moves down with its positions. */
    method KeepRow(i: nat, w: nat, wpos: nat, havePos: bool, ghost kept: seq<Row>) returns (next: nat)
      requires w == |kept| <= i < |rows| && havePos == (posOff != [])
      requires Moved(ords, tfs, dls, posData, posOff, rows, i, kept, wpos)
      modifies this`ords, this`tfs, this`dls, this`posData, this`posOff
      ensures Moved(ords, tfs, dls, posData, posOff, rows, i + 1, kept + [rows[i]], next)
      ensures havePos == (posOff != [])
      ensures w == i && (havePos ==> wpos == |Flat(rows[..i])|) ==>
                && ords == old(ords) && tfs == old(tfs) && dls == old(dls) && posData == old(posData)
                && posOff == old(posOff) && (havePos ==> next == |Flat(rows[..i + 1])|)
    {
      next := wpos;
      if havePos {
        next := MovePositions(i, w, wpos, kept);
      }
      MoveColumns(i, w, kept);
    }

    /** The columns as they were, with nothing left out in front of row i. */
    ghost predicate Untouched(ords0: seq<uint64>, tfs0: seq<uint32>, dls0: seq<uint32>, data0: seq<uint32>,
                              off0: seq<nat>, i: nat, wpos: nat)
      requires i <= |rows|
      reads this`ords, this`tfs, this`dls, this`posData, this`posOff, this`rows
    {
      && ords == ords0 && tfs == tfs0 && dls == dls0 && posData == data0 && posOff == off0
      && (posOff != [] ==> wpos == |Flat(rows[..i])|)
    }

    /** One round of the loop: row i moves down to place w if it lives. */
    method SqueezeRow(i: nat, w: nat, wpos: nat, havePos: bool, alive: bool, ghost kept: seq<Row>)
      returns (nextW: nat, nextPos: nat)
      requires w == |kept| <= i < |rows| && havePos == (posOff != [])
      requires Moved(ords, tfs, dls, posData, posOff, rows, i, kept, wpos)
      modifies this`ords, this`tfs, this`dls, this`posData, this`posOff
      ensures havePos == (posOff != []) && nextW == if alive then w + 1 else w
      ensures alive ==> Moved(ords, tfs, dls, posData, posOff, rows, i + 1, kept + [rows[i]], nextPos)
      ensures !alive ==> Moved(ords, tfs, dls, posData, posOff, rows, i + 1, kept, nextPos)
      ensures nextW == i + 1 && old(Untouched(ords, tfs, dls, posData, posOff, i, wpos)) ==>
                Untouched(old(ords), old(tfs), old(dls), old(posData), old(posOff), i + 1, nextPos)
    {
      if alive {
        nextPos := KeepRow(i, w, wpos, havePos, kept);
        nextW := w + 1;
      } else {
        SkipMoved(ords, tfs, dls, posData, posOff, rows, i, kept, wpos);
        nextW, nextPos := w, wpos;
      }
    }

    /** The two-pointer loop: live rows move down over dead ones. */
    method Squeeze(live: seq<bool>) returns (w: nat, wpos: nat)
      requires ColumnsOk() && |live| == |rows|
      modifies this`ords, this`tfs, this`dls, this`posData, this`posOff
      ensures w == |Live(rows, live)|
      ensures Moved(ords, tfs, dls, posData, posOff, rows, |rows|, Live(rows, live), wpos)
      ensures posOff == [] <==> old(posOff) == []
      ensures w == |rows| ==> ords == old(ords) && tfs == old(tfs) && dls == old(dls)
      ensures w == |rows| ==> posData == old(posData) && posOff == old(posOff)
    {
      var havePos := posOff != [];
      w, wpos := 0, 0;
      ghost var kept: seq<Row> := [];
      MovedAtStart(ords, tfs, dls, posData, posOff, rows);
      for i := 0 to |ords|
        invariant |live| == |rows| == |old(ords)| && havePos == (posOff != []) == (old(posOff) != [])
        invariant kept == Live(rows[..i], live[..i]) && w == |kept| <= i
        invariant Moved(ords, tfs, dls, posData, posOff, rows, i, kept, wpos)
        invariant w == i ==> Untouched(old(ords), old(tfs), old(dls), old(posData), old(posOff), i, wpos)
      {
        LiveNext(rows, live, i);
        w, wpos := SqueezeRow(i, w, wpos, havePos, live[i], kept);
        kept := if live[i] then kept + [rows[i]] else kept;
      }
      assert rows[..|rows|] == rows && live[..|live|] == live;
    }

    /** Cutting the columns down to the w rows kept. */
    method Resize(w: nat, wpos: nat, ghost kept: seq<Row>)
      requires w == |kept| <= |rows| && Moved(ords, tfs, dls, posData, posOff, rows, |rows|, kept, wpos)
      modifies this`ords, this`tfs, this`dls, this`posData, this`posOff
      ensures RowsMatch(ords, tfs, dls, kept)
      ensures old(posOff) != [] ==> PositionsMatch(posData, posOff, kept)
      ensures old(posOff) == [] ==> posData == old(posData)
      ensures posOff == [] <==> old(posOff) == []
    {
      Truncate(ords, tfs, dls, rows, kept, w);
      ords := ords[..w];
      tfs := tfs[..w];
      dls := dls[..w];
      if posOff != [] {
        TruncatePositions(posData, posOff, rows, kept, w, wpos);
        posOff := posOff[w := wpos];
        posOff := posOff[..w + 1];
        posData := posData[..wpos];
      }
    }

    /** Blocks and max_tf from scratch, after a compaction. */
    method Rederive()
      requires ColumnsOk()
      modifies this`blocks, this`maxTf
      ensures Valid() && FullBlocks(blocks, ords, tfs, dls, |rows|)
    {
      blocks := [];
      maxTf := 0;
      for i := 0 to |tfs|
        invariant blocks == [] && maxTf == Max(tfs[..i])
      {
        assert tfs[..i + 1][..i] == tfs[..i];
        if tfs[i] > maxTf {
          maxTf := tfs[i];
        }
      }
      assert tfs[..|tfs|] == tfs;
      SealFullBlocks();
    }

    /** The columns of the rows whose flag is set. */
    method CompactColumns(live: seq<bool>) returns (dropped: bool)
      requires ColumnsOk() && |live| == |rows|
      modifies this`ords, this`tfs, this`dls, this`posData, this`posOff, this`rows
      ensures ColumnsOk() && rows == Live(old(rows), live)
      ensures dropped <==> exists i :: 0 <= i < |live| && !live[i]
      ensures !dropped ==> rows == old(rows) && ords == old(ords) && tfs == old(tfs) && dls == old(dls)
      ensures !dropped ==> posData == old(posData) && posOff == old(posOff)
      ensures posOff == [] <==> old(posOff) == []
    {
      var n := |ords|;
      ghost var kept := Live(rows, live);
      LiveAll(rows, live);
      LiveAscending(rows, live);
      if posOff == [] {
        LiveUnpositioned(rows, live);
      }
      var w, wpos := Squeeze(live);
      if w == n {
        return false;
      }
      Resize(w, wpos, kept);
      rows := kept;
      return true;
    }

    /** Drops the rows whose flag is not set. */
    method CompactFlags(live: seq<bool>) returns (dropped: bool)
      requires Valid() && |live| == |rows|
      modifies this
      ensures Valid() && rows == Live(old(rows), live)
      ensures dropped <==> exists i :: 0 <= i < |live| && !live[i]
      ensures dropped ==> FullBlocks(blocks, ords, tfs, dls, |rows|)
      ensures !dropped ==> unchanged(this)
      ensures posOff == [] <==> old(posOff) == []
    {
      dropped := CompactColumns(live);
      if !dropped {
        return;
      }
      Rederive();
    }
  }
}
