/**
  What a posting list means: its rows, the blocks that a batch pass over them would seal, and the rows
  that survive a compaction. Everything here is on values; PostingList.dfy holds the columns.
 */
module PostingRows {
  import opened Bytes

  const BLOCK: nat := 128

  datatype Row = Row(ord: uint64, tf: uint32, dl: uint32, positions: seq<uint32>)

  datatype Block = Block(baseOrd: uint64, endOrd: uint64, maxTf: uint32, minDl: uint32, start: nat, count: nat)

  ghost predicate Ascending(rows: seq<Row>) {
    forall i, j :: 0 <= i < j < |rows| ==> rows[i].ord < rows[j].ord
  }

  /** All positions, row after row. */
  ghost function Flat(rows: seq<Row>): seq<uint32> {
    if rows == [] then [] else Flat(rows[..|rows| - 1]) + rows[|rows| - 1].positions
  }

  lemma FlatNext(rows: seq<Row>, i: nat)
    requires i < |rows|
    ensures Flat(rows[..i + 1]) == Flat(rows[..i]) + rows[i].positions
  {
    assert rows[..i + 1][..i] == rows[..i];
  }

  lemma {:induction false} FlatPrefix(rows: seq<Row>, i: nat)
    requires i <= |rows|
    ensures Flat(rows[..i]) <= Flat(rows)
    decreases |rows|
  {
    if i < |rows| {
      var n := |rows| - 1;
      assert rows[..n][..i] == rows[..i];
      FlatPrefix(rows[..n], i);
    } else {
      assert rows[..i] == rows;
    }
  }

  /** The flat positions, cut at two neighbouring offsets, give back one row's positions. */
  lemma FlatSlice(rows: seq<Row>, i: nat)
    requires i < |rows|
    ensures |Flat(rows[..i])| <= |Flat(rows[..i + 1])| <= |Flat(rows)|
    ensures Flat(rows)[|Flat(rows[..i])|..|Flat(rows[..i + 1])|] == rows[i].positions
  {
    FlatNext(rows, i);
    FlatPrefix(rows, i + 1);
  }

  // ---------------------------------------------------------------------------------------
  // Blocks
  // ---------------------------------------------------------------------------------------

  /** The largest value, 0 for none. */
  ghost function Max(s: seq<uint32>): uint32 {
    if s == [] then 0 else var m := Max(s[..|s| - 1]); if s[|s| - 1] > m then s[|s| - 1] else m
  }

  lemma MaxNext(s: seq<uint32>, n: nat)
    requires n < |s|
    ensures Max(s[..n + 1]) == if s[n] > Max(s[..n]) then s[n] else Max(s[..n])
  {
    assert s[..n + 1][..n] == s[..n];
  }

  lemma {:induction false} MaxIsLargest(s: seq<uint32>)
    ensures forall i :: 0 <= i < |s| ==> s[i] <= Max(s)
    ensures if s == [] then Max(s) == 0 else Max(s) in s
  {
    if s != [] {
      var n := |s| - 1;
      MaxIsLargest(s[..n]);
    }
  }

  /** The smallest known (positive) document length, UINT32_MAX for none. */
  ghost function MinKnown(s: seq<uint32>): uint32 {
    if s == [] then UINT32_MAX
    else var m := MinKnown(s[..|s| - 1]); if 0 < s[|s| - 1] < m then s[|s| - 1] else m
  }

  /** What a block stores: 1 when no length is known. */
  ghost function MinDl(s: seq<uint32>): uint32 {
    if MinKnown(s) == UINT32_MAX then 1 else MinKnown(s)
  }

  lemma {:induction false} MinKnownIsSmallest(s: seq<uint32>)
    ensures forall i :: 0 <= i < |s| && s[i] > 0 ==> MinKnown(s) <= s[i]
    ensures MinKnown(s) == UINT32_MAX || MinKnown(s) in s
    ensures MinKnown(s) > 0
  {
    if s != [] {
      MinKnownIsSmallest(s[..|s| - 1]);
    }
  }

  /** The block of the rows in [start, end). */
  ghost function BlockOf(ords: seq<uint64>, tfs: seq<uint32>, dls: seq<uint32>, start: nat, end: nat): Block
    requires start < end <= |ords| && |ords| == |tfs| == |dls|
  {
    Block(ords[start], ords[end - 1], Max(tfs[start..end]), MinDl(dls[start..end]), start, end - start)
  }

  /** What the fields of a block are. */
  lemma BlockIs(ords: seq<uint64>, tfs: seq<uint32>, dls: seq<uint32>, start: nat, end: nat)
    requires start < end <= |ords| && |ords| == |tfs| == |dls|
    ensures var blk := BlockOf(ords, tfs, dls, start, end);
      && blk.baseOrd == ords[start] && blk.endOrd == ords[end - 1] && blk.start == start && blk.count == end - start
      && (forall i :: start <= i < end ==> tfs[i] <= blk.maxTf) && blk.maxTf in tfs[start..end]
      && (forall i :: start <= i < end && dls[i] > 0 ==> blk.minDl <= dls[i])
      && (blk.minDl in dls[start..end] || blk.minDl == 1)
      && ((forall i :: start <= i < end ==> dls[i] == 0) ==> blk.minDl == 1)
  {
    MaxIsLargest(tfs[start..end]);
    MinKnownIsSmallest(dls[start..end]);
    forall i | start <= i < end
      ensures tfs[i] <= Max(tfs[start..end]) && (dls[i] > 0 ==> MinKnown(dls[start..end]) <= dls[i])
    {
      assert tfs[start..end][i - start] == tfs[i] && dls[start..end][i - start] == dls[i];
    }
  }

  /** Every block is what a batch pass computes for its place. */
  ghost predicate SomeBlocks(blocks: seq<Block>, ords: seq<uint64>, tfs: seq<uint32>, dls: seq<uint32>)
    requires |ords| == |tfs| == |dls|
  {
    && BLOCK * |blocks| <= |ords|
    && forall k :: 0 <= k < |blocks| ==> blocks[k] == BlockOf(ords, tfs, dls, BLOCK * k, BLOCK * k + BLOCK)
  }

  /** Exactly the full blocks of the first n rows. */
  ghost predicate FullBlocks(blocks: seq<Block>, ords: seq<uint64>, tfs: seq<uint32>, dls: seq<uint32>, n: nat)
    requires n <= |ords| && |ords| == |tfs| == |dls|
  {
    BLOCK * |blocks| <= n < BLOCK * |blocks| + BLOCK && SomeBlocks(blocks, ords, tfs, dls)
  }

  /** Full blocks followed by a last one, full or partial, that ends at row n. A list of fewer than 128
      rows has no block at all. */
  ghost predicate AllBlocks(blocks: seq<Block>, ords: seq<uint64>, tfs: seq<uint32>, dls: seq<uint32>, n: nat)
    requires n <= |ords| && |ords| == |tfs| == |dls|
  {
    if n < BLOCK then blocks == []
    else
      var m := |blocks| - 1;
      && 0 <= m && BLOCK * m < n <= BLOCK * m + BLOCK
      && SomeBlocks(blocks[..m], ords, tfs, dls)
      && blocks[m] == BlockOf(ords, tfs, dls, BLOCK * m, n)
  }

  /** Either form is what incremental sealing and finalize may leave. */
  ghost predicate Sealed(blocks: seq<Block>, ords: seq<uint64>, tfs: seq<uint32>, dls: seq<uint32>, n: nat)
    requires n <= |ords| && |ords| == |tfs| == |dls|
  {
    FullBlocks(blocks, ords, tfs, dls, n) || AllBlocks(blocks, ords, tfs, dls, n)
  }

  lemma OneMoreBlock(blocks: seq<Block>, ords: seq<uint64>, tfs: seq<uint32>, dls: seq<uint32>, block: Block)
    requires |ords| == |tfs| == |dls| && SomeBlocks(blocks, ords, tfs, dls)
    requires BLOCK * |blocks| + BLOCK <= |ords|
    requires block == BlockOf(ords, tfs, dls, BLOCK * |blocks|, BLOCK * |blocks| + BLOCK)
    ensures SomeBlocks(blocks + [block], ords, tfs, dls)
  {
  }

  /** A block depends on its own rows only, so appending a row leaves it as it was. */
  lemma BlocksStay(blocks: seq<Block>, ords: seq<uint64>, tfs: seq<uint32>, dls: seq<uint32>, row: Row)
    requires |ords| == |tfs| == |dls| && SomeBlocks(blocks, ords, tfs, dls)
    ensures SomeBlocks(blocks, ords + [row.ord], tfs + [row.tf], dls + [row.dl])
  {
    forall k | 0 <= k < |blocks|
      ensures blocks[k]
           == BlockOf(ords + [row.ord], tfs + [row.tf], dls + [row.dl], BLOCK * k, BLOCK * k + BLOCK)
    {
      assert (tfs + [row.tf])[BLOCK * k..BLOCK * k + BLOCK] == tfs[BLOCK * k..BLOCK * k + BLOCK];
      assert (dls + [row.dl])[BLOCK * k..BLOCK * k + BLOCK] == dls[BLOCK * k..BLOCK * k + BLOCK];
    }
  }

  /** The same for a partial last block. */
  lemma PartialStays(ords: seq<uint64>, tfs: seq<uint32>, dls: seq<uint32>, start: nat, end: nat, row: Row)
    requires |ords| == |tfs| == |dls| && start < end <= |ords|
    ensures BlockOf(ords + [row.ord], tfs + [row.tf], dls + [row.dl], start, end) == BlockOf(ords, tfs, dls, start, end)
  {
    assert (tfs + [row.tf])[start..end] == tfs[start..end];
    assert (dls + [row.dl])[start..end] == dls[start..end];
  }

  lemma SealedStays(blocks: seq<Block>, ords: seq<uint64>, tfs: seq<uint32>, dls: seq<uint32>, n: nat, row: Row)
    requires |ords| == |tfs| == |dls| == n && Sealed(blocks, ords, tfs, dls, n)
    ensures Sealed(blocks, ords + [row.ord], tfs + [row.tf], dls + [row.dl], n)
  {
    if FullBlocks(blocks, ords, tfs, dls, n) {
      BlocksStay(blocks, ords, tfs, dls, row);
    } else {
      var m := |blocks| - 1;
      BlocksStay(blocks[..m], ords, tfs, dls, row);
      PartialStays(ords, tfs, dls, BLOCK * m, n, row);
    }
  }

  // ---------------------------------------------------------------------------------------
  // Survivors
  // ---------------------------------------------------------------------------------------

  /** The rows whose flag is set, in their old order. */
  ghost function Live(rows: seq<Row>, live: seq<bool>): (kept: seq<Row>)
    requires |rows| == |live|
    ensures |kept| <= |rows|
  {
    if rows == [] then []
    else
      var n := |rows| - 1;
      var kept := Live(rows[..n], live[..n]);
      if live[n] then kept + [rows[n]] else kept
  }

  lemma LiveNext(rows: seq<Row>, live: seq<bool>, i: nat)
    requires |rows| == |live| && i < |rows|
    ensures live[i] ==> Live(rows[..i + 1], live[..i + 1]) == Live(rows[..i], live[..i]) + [rows[i]]
    ensures !live[i] ==> Live(rows[..i + 1], live[..i + 1]) == Live(rows[..i], live[..i])
  {
    assert rows[..i + 1][..i] == rows[..i] && live[..i + 1][..i] == live[..i];
  }

  /** What Live keeps: a row is kept just when some set flag marks it. */
  lemma {:induction false} LiveExact(rows: seq<Row>, live: seq<bool>)
    requires |rows| == |live|
    ensures forall r :: r in Live(rows, live) <==> exists i :: 0 <= i < |rows| && live[i] && rows[i] == r
  {
    if rows != [] {
      var n := |rows| - 1;
      LiveExact(rows[..n], live[..n]);
      forall r | exists i :: 0 <= i < |rows| && live[i] && rows[i] == r ensures r in Live(rows, live) {
        var i :| 0 <= i < |rows| && live[i] && rows[i] == r;
        if i < n {
          assert live[..n][i] && rows[..n][i] == r;
        }
      }
    }
  }

  lemma {:induction false} LiveAscending(rows: seq<Row>, live: seq<bool>)
    requires |rows| == |live| && Ascending(rows)
    ensures Ascending(Live(rows, live))
    ensures forall t :: 0 <= t < |Live(rows, live)| ==> Live(rows, live)[t].ord <= rows[|rows| - 1].ord
  {
    if rows != [] {
      var n := |rows| - 1;
      LiveAscending(rows[..n], live[..n]);
    }
  }

  lemma {:induction false} LiveAll(rows: seq<Row>, live: seq<bool>)
    requires |rows| == |live|
    ensures |Live(rows, live)| == |rows| <==> forall i :: 0 <= i < |live| ==> live[i]
    ensures |Live(rows, live)| == |rows| ==> Live(rows, live) == rows
  {
    if rows != [] {
      var n := |rows| - 1;
      LiveAll(rows[..n], live[..n]);
      assert rows == rows[..n] + [rows[n]];
    }
  }
}
