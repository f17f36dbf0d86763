/**
 Resource groups: the three ways in which fs_bits.c and gfs2_convert.c find the entry of a block in the bitmaps,
 and the walk over all blocks in inode state.
 */
module ResourceGroups {
  import opened FsBits
  import opened Bitmaps

  const FREE: nat := 0
  const USED: nat := 1
  const UNLINKED: nat := 2
  const DINODE: nat := 3
  const TWO_32: nat := 0x1_0000_0000
  const TWO_63: nat := 0x8000_0000_0000_0000
  const TWO_64: nat := 0x1_0000_0000_0000_0000

  function Bits2(state: nat): (b: bv8)
    requires state <= 3
    ensures b <= 3 && Number(b) == state
  {
    if state == 0 then 0 else if state == 1 then 1 else if state == 2 then 2 else 3
  }

  function Number(b: bv8): (state: nat)
    requires b <= 3
    ensures state <= 3 && (b == 0 <==> state == 0) && (b == 1 <==> state == 1) && (b == 2 <==> state == 2)
    ensures (b == 3 <==> state == 3)
  {
    if b == 0 then 0 else if b == 1 then 1 else if b == 2 then 2 else 3
  }

  // gfs2_compute_bitstructs and compute_bitmaps, in unsigned 32-bit arithmetic.
  method ComputeBitstructs(bsize: nat, length: nat, bitbytes: nat, data: nat) returns (ok: bool, bits: seq<Bitmap>)
    requires RGRP_BYTES < bsize < 0x4000_0000 && bsize % 8 == 0 && bitbytes < TWO_32 && data < TWO_32
    ensures ok <==> 0 < length <= 2149 && NBBY * bitbytes % TWO_32 == data
    // the layout is sound when the last bitmap gets something, and no more than fits into its block
    ensures ok && NBBY * bitbytes < TWO_32 ==>
      StartOf(bsize, length - 1) < bitbytes <= StartOf(bsize, length) ==> |bits| == length && Laid(bits, bsize, data)
  {
    hide Laid, Full, StartOf;
    bits := [];
    if length > 2149 || length == 0 {
      return false, bits;
    }
    bits := FullBitmaps(bsize, length);
    var x := length - 1;
    WrappedLength(bitbytes, bits[x].start);
    LastFits(bits, bsize, bitbytes, data);
    bits := bits[x := bits[x].(len := (bitbytes - bits[x].start) % TWO_32)];
    var bytesLeft := (bitbytes - (bits[x].start + bits[x].len)) % TWO_32;
    if bytesLeft != 0 {
      return false, bits;
    }
    ok := (bits[x].start + bits[x].len) * NBBY % TWO_32 == data;
  }

  // The loop of compute_bitmaps: as if every bitmap filled its block.
  method FullBitmaps(bsize: nat, length: nat) returns (bits: seq<Bitmap>)
    requires RGRP_BYTES < bsize && length > 0
    ensures |bits| == length && Full(bits, bsize)
  {
    bits := [Bitmap(RGRP_BYTES, 0, bsize - RGRP_BYTES)];
    var x := 1;
    while x < length
      invariant 1 <= x <= length && |bits| == x && Full(bits, bsize)
    {
      bits := bits + [Bitmap(META_HEADER_BYTES, bits[x - 1].start + bits[x - 1].len, bsize - META_HEADER_BYTES)];
      x := x + 1;
    }
  }

  ghost predicate Full(bits: seq<Bitmap>, bsize: nat)
    requires bsize > RGRP_BYTES
  {
    forall y | 0 <= y < |bits| :: bits[y].offset == OffsetOf(y) && bits[y].start == StartOf(bsize, y) &&
        bits[y].len == bsize - bits[y].offset
  }

  lemma LastFits(bits: seq<Bitmap>, bsize: nat, bitbytes: nat, data: nat)
    requires RGRP_BYTES < bsize < 0x4000_0000 && bsize % 8 == 0 && |bits| > 0 && Full(bits, bsize)
    ensures bits[|bits| - 1].start == StartOf(bsize, |bits| - 1)
    ensures StartOf(bsize, |bits| - 1) < bitbytes <= StartOf(bsize, |bits|) && NBBY * bitbytes == data ==>
      Laid(bits[|bits| - 1 := bits[|bits| - 1].(len := bitbytes - bits[|bits| - 1].start)], bsize, data)
  {
    hide StartOf, OffsetOf;
    StartNext(bsize, |bits| - 1);
  }

  lemma WrappedLength(bitbytes: nat, start: nat)
    ensures
      var len := (bitbytes - start) % TWO_32;
      && (bitbytes - (start + len)) % TWO_32 == 0 && (start + len) * NBBY % TWO_32 == NBBY * bitbytes % TWO_32
      && (start < bitbytes < TWO_32 ==> len == bitbytes - start)
  {
    var len := (bitbytes - start) % TWO_32;
    var q := (bitbytes - start) / TWO_32;
    assert bitbytes == start + len + q * TWO_32;
    assert NBBY * bitbytes == (start + len) * NBBY + q * NBBY * TWO_32;
  }

  // A strictly ascending list of numbers below `to`.
  ghost predicate Ascending(list: seq<nat>, to: nat) {
    && (forall i, j | 0 <= i < j < |list| :: list[i] < list[j])
    && forall i | 0 <= i < |list| :: list[i] < to
  }

  lemma AscendingMore(list: seq<nat>, to: nat)
    requires Ascending(list, to)
    ensures Ascending(list, to + 1) && Ascending(list + [to], to + 1)
  {
  }

  lemma AscendingUp(list: seq<nat>, to: nat, to': nat)
    requires Ascending(list, to) && to <= to'
    ensures Ascending(list, to')
  {
  }

  class ResourceGroup {
    const bsize: nat
    const data0: nat
    const data: nat
    const bits: seq<Bitmap>
    var buf: Buffers
    var rtFree: nat
    var rtDinodes: nat

    ghost predicate Valid()
      reads this`buf
    {
      Laid(bits, bsize, data) && Loaded(buf, bits, bsize) && data < TWO_32 && data0 + data < TWO_63
    }

    // The state of each data block.
    ghost function States(): (s: seq<bv8>)
      requires Valid()
      reads this`buf
      ensures |s| == data && forall n | 0 <= n < data :: s[n] == StateOf(buf, bits, bsize, data, n)
    {
      var b := buf;
      seq(data, n requires 0 <= n < data && Laid(bits, bsize, data) &&
          Loaded(b, bits, bsize) => StateOf(b, bits, bsize, data, n))
    }

    // gfs2_set_bitmap: find the bitmap by scanning them.
    method SetBitmap(blkno: nat, state: int) returns (rc: int)
      requires Valid() && blkno < data0 + data
      modifies this`buf
      ensures Valid() && rc == if state < FREE || state > DINODE || blkno < data0 then -1 else 0
      ensures States() == if rc == 0 then old(States())[blkno - data0 := Bits2(state)] else old(States())
      ensures rc != 0 ==> buf == old(buf)
    {
      hide Laid, Entry, WithEntry, StateOf;
      if state < FREE || state > DINODE {
        return -1;
      }
      if blkno < data0 {
        return -1;
      }
      var rgrpBlock := blkno - data0;
      var x := ScanBits(rgrpBlock);
      var o := bits[x].offset + (rgrpBlock / NBBY - bits[x].start);
      StateSet(buf, bits, bsize, data, rgrpBlock, x, o, Bits2(state));
      buf := buf[x := buf[x][o := WithEntry(buf[x][o], rgrpBlock % NBBY, Bits2(state))]];
      rc := 0;
    }

    method ScanBits(rgrpBlock: nat) returns (x: nat)
      requires Laid(bits, bsize, data) && rgrpBlock < data
      ensures x < |bits| && bits[x].start <= rgrpBlock / NBBY
      ensures Sits(bits, rgrpBlock, x, bits[x].offset + (rgrpBlock / NBBY - bits[x].start))
    {
      hide Laid;
      x := 0;
      NotEmpty(bits, bsize, data);
      SliceFits(bits, bsize, data, 0);
      while x < |bits|
        invariant x <= |bits| && (x < |bits| ==> bits[x].start <= rgrpBlock / NBBY)
        invariant (x == |bits| ==> data <= rgrpBlock)
      {
        SliceFits(bits, bsize, data, x);
        BelowBytes(rgrpBlock, bits[x].start + bits[x].len);
        if rgrpBlock < (bits[x].start + bits[x].len) * NBBY {
          break;
        }
        x := x + 1;
      }
    }

    // The distance of a block from the first data block, in unsigned 64-bit arithmetic.
    function Offset(blkno: nat): (offset: int)
      ensures offset >= 0
    {
      (blkno - data0) % TWO_64
    }

    // What the range test of lgfs2_get_bitmap lets through.
    predicate PassesRangeTest(blkno: nat) {
      Offset(blkno) < TWO_32 && Offset(blkno) < data0 + data
    }

    // lgfs2_get_bitmap: find the bitmap by division.
    method GetBitmap(blkno: nat) returns (state: int)
      requires Valid() && blkno < TWO_64 && (PassesRangeTest(blkno) ==> blkno < data0 + data)
      ensures if data0 <= blkno < data0 + data then 0 <= state <= 3 && States()[blkno - data0] == Bits2(state)
        else state == -1
    {
      hide Laid, Entry, Offset, DivisionBlock, DivisionByte, Loaded, StateOf;
      NotEmpty(bits, bsize, data);
      BitmapRoom(bits, bsize, data, 0);
      RangeTest(blkno);
      var offset: nat := Offset(blkno);
      if offset > TWO_32 - 1 {
        return -1;
      }
      if offset >= data0 + data {
        return -1;
      }
      Located(offset);
      var x := 0;
      var byte := offset / NBBY;
      if offset >= (bits[0].start + bits[0].len) * NBBY {
        x := DivisionBlock(offset, bsize);
        byte := DivisionByte(offset, bsize);
      }
      state := Number(Entry(buf[x][bits[x].offset + byte], offset % NBBY));
    }

    lemma RangeTest(blkno: nat)
      requires Valid() && blkno < TWO_64
      ensures blkno < data0 ==> !PassesRangeTest(blkno)
      ensures data0 <= blkno < data0 + data ==> PassesRangeTest(blkno) && Offset(blkno) == blkno - data0
      ensures data0 + data <= blkno ==> Offset(blkno) == blkno - data0
    {
      hide Laid;
      if blkno < data0 {
        assert Offset(blkno) == blkno - data0 + TWO_64;
      } else {
        assert Offset(blkno) == blkno - data0;
      }
    }

    // Both ways of reading end up at the entry.
    lemma Located(offset: nat)
      requires Valid() && offset < data
      ensures |bits| > 0 && |buf| == |bits|
      ensures
        var inFirst := offset < (bits[0].start + bits[0].len) * NBBY;
        var x := if inFirst then 0 else DivisionBlock(offset, bsize);
        var byte := if inFirst then offset / NBBY else DivisionByte(offset, bsize);
        && x < |bits| && byte >= 0 && bits[x].offset + byte < |buf[x]|
        && Entry(buf[x][bits[x].offset + byte], offset % NBBY) == States()[offset]
    {
      DivisionSits(bits, bsize, data, offset);
      hide DivisionBlock, DivisionByte, Entry;
      var inFirst := offset < (bits[0].start + bits[0].len) * NBBY;
      var x := if inFirst then 0 else DivisionBlock(offset, bsize);
      var byte := if inFirst then offset / NBBY else DivisionByte(offset, bsize);
      PlaceInside(bits, bsize, data, offset, x, bits[x].offset + byte);
      PlaceIs(bits, bsize, data, offset, x, bits[x].offset + byte);
    }

    // The range test is meant to reject blocks that have no entry. It compares an offset with an address, and
    // so rejects every such block if and only if the group starts at address 0.
    lemma RangeTestExact()
      requires Valid()
      ensures (forall blkno: nat | blkno < TWO_64 && PassesRangeTest(blkno) :: data0 <= blkno < data0 + data)
        <==> data0 == 0
    {
      hide Laid, Offset;
      if data0 > 0 {
        RangeTest(data0 + data);
        assert PassesRangeTest(data0 + data);
      } else {
        forall blkno: nat | blkno < TWO_64 && PassesRangeTest(blkno) ensures data0 <= blkno < data0 + data {
          RangeTest(blkno);
        }
      }
    }

    // Of the blocks without an entry it lets through those behind the group that are nearer to its first data block
    // than the end of the group is to address 0, if their offset is a 32-bit number.
    lemma LetThrough(blkno: nat)
      requires Valid() && blkno < TWO_64
      ensures PassesRangeTest(blkno) && !(data0 <= blkno < data0 + data) <==>
        data0 + data <= blkno < 2 * data0 + data && blkno - data0 < TWO_32
      ensures data0 > 0 ==> PassesRangeTest(data0 + data)
    {
      hide Laid, Offset;
      RangeTest(blkno);
      RangeTest(data0 + data);
    }

    // n is the first data block in inode state from `from` on.
    ghost predicate NextInode(from: nat, n: nat)
      requires Valid()
      reads this`buf
    {
      from <= n < data && States()[n] == 3 && NoInode(from, n)
    }

    ghost predicate NoInode(from: nat, to: nat)
      requires Valid()
      reads this`buf
    {
      forall m: nat | from <= m < to && m < data :: States()[m] != 3
    }

    // The search in one block of the bitmap, and what it says about the data blocks.
    method FitBlock(x: nat, blk: nat, ghost from: nat) returns (n: nat)
      requires Valid() && x < |bits| && blk < NBBY * bits[x].len
      requires from <= NBBY * bits[x].start + blk && NoInode(from, NBBY * bits[x].start + blk)
      ensures n != BFITNOENT ==>
        n < NBBY * bits[x].len && NBBY * bits[x].start + n < data && NextInode(from, NBBY * bits[x].start + n)
      ensures n == BFITNOENT ==> NoInode(from, NBBY * (bits[x].start + bits[x].len))
    {
      hide Laid, EntryAt, StateOf, States;
      SliceFits(bits, bsize, data, x);
      var slice := buf[x][bits[x].offset..];
      forall e: nat | e < NBBY * bits[x].len
        ensures NBBY * bits[x].start + e < data && e / NBBY < |slice|
        ensures EntryAt(slice, e) == States()[NBBY * bits[x].start + e]
      {
        SliceEntry(buf, bits, bsize, data, x, e);
      }
      GoalFits(blk, bits[x].len);
      n := BitFit(slice, bits[x].len, blk, 3);
      ghost var last := if n == BFITNOENT then NBBY * bits[x].len else n;
      forall m: nat | from <= m < NBBY * bits[x].start + last && m < data ensures States()[m] != 3 {
        if m >= NBBY * bits[x].start + blk {
          assert EntryAt(slice, m - NBBY * bits[x].start) != 3;
        }
      }
    }

    // next_rg_meta: the next data block in inode state, or -1.
    method NextRgMeta(block0: nat, first: bool) returns (rc: int, block: nat)
      requires Valid() && (!first ==> data0 <= block0 && block0 + 1 - data0 < TWO_32)
      ensures
        var from := if first then 0 else block0 + 1 - data0;
        if rc == 0 then data0 <= block < data0 + data && NextInode(from, block - data0)
            else rc == -1 && block == block0 && NoInode(from, data)
    {
      hide Laid, StateOf, NextInode, NoInode, States;
      block := block0;
      var from := if first then 0 else block0 + 1 - data0;
      var blk: nat := from;
      var i := 0;
      NotEmpty(bits, bsize, data);
      SliceFits(bits, bsize, data, 0);
      while i < |bits|
        invariant i <= |bits| && (i < |bits| ==> from == NBBY * bits[i].start + blk) && (i == |bits| ==> data <= from)
      {
        SliceFits(bits, bsize, data, i);
        if blk < bits[i].len * NBBY {
          break;
        }
        blk := blk - bits[i].len * NBBY;
        i := i + 1;
      }
      NoneBefore(from);
      while i < |bits|
        invariant i <= |bits| && (i < |bits| ==> blk < NBBY * bits[i].len && from <= NBBY * bits[i].start + blk)
        invariant NoInode(from, if i < |bits| then NBBY * bits[i].start + blk else data)
      {
        SliceFits(bits, bsize, data, i);
        blk := FitBlock(i, blk, from);
        if blk != BFITNOENT {
          block := blk + bits[i].start * NBBY + data0;
          return 0, block;
        }
        blk := 0;
        i := i + 1;
        if i < |bits| {
          SliceFits(bits, bsize, data, i);
        }
      }
      rc := -1;
    }

    lemma NoneBefore(from: nat)
      requires Valid()
      ensures NoInode(from, from) && (data <= from ==> NoInode(from, data))
    {
    }

    lemma GoalFits(blk: nat, len: nat)
      requires blk < NBBY * len
      ensures blk / 32 < Align8(len) / 8
    {
    }

    // The locator of inode_renumber: walk over the bitmaps with the number of bytes that are left to skip.
    method FindByte(n: nat) returns (x: nat, o: nat)
      requires Valid() && n < data
      ensures Sits(bits, n, x, o)
    {
      hide Laid;
      var bitmapByte: nat := n / NBBY;
      x := 0;
      o := 0;
      NotEmpty(bits, bsize, data);
      SliceFits(bits, bsize, data, 0);
      while x < |bits|
        invariant x <= |bits| && (x < |bits| ==> bits[x].start + bitmapByte == n / NBBY)
        invariant x == |bits| ==> data <= n
      {
        SliceFits(bits, bsize, data, x);
        BelowBytes(n, bits[x].start + bits[x].len);
        BitmapRoom(bits, bsize, data, x);
        var bufOffset := if x > 0 then META_HEADER_BYTES else RGRP_BYTES;
        if bufOffset + bitmapByte < bsize {
          o := bufOffset + bitmapByte;
          return;
        }
        bitmapByte := bitmapByte - (bsize - bufOffset);
        x := x + 1;
      }
    }

    // A block in inode state that holds metadata but no inode: its state is to become "used".
    ghost predicate Stray(states: seq<bv8>, magic: set<nat>, inodes: set<nat>, n: nat)
      requires n < |states|
    {
      states[n] == 3 && data0 + n in magic && data0 + n !in inodes
    }

    // The data blocks below `to` are dealt with: strays are marked used, and inodes are listed in ascending order.
    ghost predicate Renumbered(states: seq<bv8>, now: seq<bv8>, magic: set<nat>, inodes: set<nat>, list: seq<nat>,
                               to: nat)
      requires |states| == |now| == data
    {
      Marked(states, now, magic, inodes, to) && Listed(states, magic * inodes, list, to)
    }

    ghost predicate Marked(states: seq<bv8>, now: seq<bv8>, magic: set<nat>, inodes: set<nat>, to: nat)
      requires |states| == |now| == data
    {
      forall n | 0 <= n < data :: now[n] == if n < to && Stray(states, magic, inodes, n) then 1 else states[n]
    }

    ghost predicate Listed(states: seq<bv8>, inodes: set<nat>, list: seq<nat>, to: nat)
      requires |states| == data
    {
      && Ascending(list, data0 + to)
      && forall b :: b in list <==> data0 <= b < data0 + to && b < data0 + data && states[b - data0] == 3 && b in inodes
    }

    lemma ListedOne(states: seq<bv8>, inodes: set<nat>, list: seq<nat>, n: nat)
      requires |states| == data && n < data && Listed(states, inodes, list, n) && states[n] == 3
      ensures Listed(states, inodes, if data0 + n in inodes then list + [data0 + n] else list, n + 1)
    {
      hide Ascending;
      AscendingMore(list, data0 + n);
      var list' := if data0 + n in inodes then list + [data0 + n] else list;
      forall b: nat ensures b in list' <==>
          data0 <= b < data0 + n + 1 && b < data0 + data && states[b - data0] == 3 && b in inodes {
        assert b in list' <==> b in list || (b == data0 + n && b in inodes);
      }
    }

    // Mark the block used, by masking its entry.
    method MarkUsed(block: nat)
      requires Valid() && data0 <= block < data0 + data
      modifies this`buf
      ensures Valid() && States() == old(States())[block - data0 := 1]
    {
      hide Laid, WithEntry, Masked, Entry, StateOf;
      var n := block - data0;
      var x, o := FindByte(n);
      StateSet(buf, bits, bsize, data, n, x, o, 1);
      EntrySet(buf[x][o], n % NBBY, 1, 0);
      buf := buf[x := buf[x][o := Masked(buf[x][o], n % NBBY, 1)]];
    }

    // The loop of inode_renumber over one group. magic are the blocks with the magic number of the file system,
    // inodes those that hold an inode.
    method RenumberGroup(magic: set<nat>, inodes: set<nat>, block0: nat) returns (list: seq<nat>)
      requires Valid()
      modifies this`buf
      ensures Valid() && Renumbered(old(States()), States(), magic, inodes, list, data)
    {
      hide Laid, Loaded, StateOf, NextInode, NoInode, Renumbered, States;
      ghost var states := States();
      list := [];
      var block: nat, first := block0, true;
      RenumberNone(states, magic, inodes);
      ghost var to: nat := 0;
      while true
        invariant Valid() && to <= data && (if first then to == 0 else block >= data0 && to == block + 1 - data0)
        invariant Renumbered(states, States(), magic, inodes, list, to)
        decreases data - to
      {
        var rc;
        rc, block := NextRgMeta(block, first);
        if rc != 0 {
          RenumberSkip(states, magic, inodes, list, to, data);
          return;
        }
        first := false;
        RenumberSkip(states, magic, inodes, list, to, block - data0);
        list := RenumberBlock(block, list, states, magic, inodes);
        to := block + 1 - data0;
      }
    }

    method RenumberBlock(block: nat, list0: seq<nat>, ghost states: seq<bv8>, magic: set<nat>, inodes: set<nat>)
      returns (list: seq<nat>)
      requires Valid() && data0 <= block < data0 + data && |states| == data && States()[block - data0] == 3
      requires Renumbered(states, States(), magic, inodes, list0, block - data0)
      modifies this`buf
      ensures Valid() && Renumbered(states, States(), magic, inodes, list, block - data0 + 1)
    {
      hide Laid, Loaded, StateOf, Renumbered, States;
      ghost var before := States();
      list := list0;
      if block in magic {
        if block in inodes {
          list := list + [block];
        } else {
          MarkUsed(block);
        }
      }
      RenumberOne(states, before, States(), magic, inodes, list0, list, block - data0);
    }

    lemma RenumberNone(states: seq<bv8>, magic: set<nat>, inodes: set<nat>)
      requires |states| == data
      ensures Renumbered(states, states, magic, inodes, [], 0)
    {
    }

    // From one block in inode state to the next there is nothing to do.
    lemma RenumberSkip(states: seq<bv8>, magic: set<nat>, inodes: set<nat>, list: seq<nat>, from: nat, to: nat)
      requires Valid() && |states| == data && Renumbered(states, States(), magic, inodes, list, from) && from <= data
      requires if to == data then NoInode(from, data) else NextInode(from, to)
      ensures Renumbered(states, States(), magic, inodes, list, to)
      ensures to < data ==> from <= to && States()[to] == 3
    {
      hide Laid, Loaded, StateOf, Ascending;
      AscendingUp(list, data0 + from, data0 + to);
      assert forall n | from <= n < to && n < data :: states[n] == States()[n] != 3;
    }

    lemma RenumberOne(states: seq<bv8>, now: seq<bv8>, now': seq<bv8>, magic: set<nat>, inodes: set<nat>,
                      list: seq<nat>, list': seq<nat>, n: nat)
      requires |states| == |now| == |now'| == data && n < data && Renumbered(states, now, magic, inodes, list, n)
      requires now[n] == 3
      requires list' == if data0 + n in magic && data0 + n in inodes then list + [data0 + n] else list
      requires now' == if data0 + n in magic && data0 + n !in inodes then now[n := 1] else now
      ensures Renumbered(states, now', magic, inodes, list', n + 1)
    {
      hide Listed;
      ListedOne(states, magic * inodes, list, n);
    }
  }
}
