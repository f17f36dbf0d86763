/**
 How the block bitmap of a resource group is spread over its blocks, and where in it a data block has its entry.
 */
module Bitmaps {
  import opened FsBits
  import MetaPaths

  const RGRP_BYTES: nat := 128          // sizeof(struct gfs2_rgrp)
  const META_HEADER_BYTES: nat := 24    // sizeof(struct gfs2_meta_header)

  // struct gfs2_bitmap: where its bytes start in the block, which byte of the whole bitmap that is, how many there are.
  datatype Bitmap = Bitmap(offset: nat, start: nat, len: nat)

  // What gfs2_compute_bitstructs lays out: one bitmap a block, each but the last filling its block.
  ghost predicate Laid(bits: seq<Bitmap>, bsize: nat, data: nat) {
    && |bits| > 0 && RGRP_BYTES < bsize < 0x4000_0000 && bsize % 8 == 0
    && (forall x | 0 <= x < |bits| :: bits[x].offset == OffsetOf(x) && bits[x].start == StartOf(bsize, x))
    && (forall x | 0 <= x < |bits| - 1 :: bits[x].len == bsize - bits[x].offset)
    && 0 < bits[|bits| - 1].len <= bsize - bits[|bits| - 1].offset
    && data == NBBY * (bits[|bits| - 1].start + bits[|bits| - 1].len)
  }

  function OffsetOf(x: nat): nat {
    if x == 0 then RGRP_BYTES else META_HEADER_BYTES
  }

  ghost function StartOf(bsize: nat, x: nat): nat
    requires bsize > RGRP_BYTES
  {
    if x == 0 then 0 else StartOf(bsize, x - 1) + bsize - OffsetOf(x - 1)
  }

  lemma StartNext(bsize: nat, x: nat)
    requires bsize > RGRP_BYTES
    ensures StartOf(bsize, x + 1) == StartOf(bsize, x) + bsize - OffsetOf(x)
  {
  }

  lemma NotEmpty(bits: seq<Bitmap>, bsize: nat, data: nat)
    requires Laid(bits, bsize, data)
    ensures |bits| > 0
  {
  }

  lemma {:induction false} StartIs(bsize: nat, x: nat)
    requires bsize > RGRP_BYTES
    ensures StartOf(bsize, x) == if x == 0 then 0
      else x * (bsize - META_HEADER_BYTES) - (RGRP_BYTES - META_HEADER_BYTES)
  {
    if x > 1 {
      StartIs(bsize, x - 1);
      assert x * (bsize - META_HEADER_BYTES) == (x - 1) * (bsize - META_HEADER_BYTES) + (bsize - META_HEADER_BYTES);
    }
  }

  lemma {:induction false} StartGrows(bsize: nat, x: nat, y: nat)
    requires bsize > RGRP_BYTES && x < y
    ensures StartOf(bsize, x) + bsize - OffsetOf(x) <= StartOf(bsize, y)
    decreases y
  {
    if x < y - 1 {
      StartGrows(bsize, x, y - 1);
    }
  }

  // Byte n / 4 of the bitmap is byte o of block x.
  ghost predicate Sits(bits: seq<Bitmap>, n: nat, x: nat, o: nat) {
    x < |bits| && bits[x].start <= n / NBBY < bits[x].start + bits[x].len &&
        o == bits[x].offset + (n / NBBY - bits[x].start)
  }

  // No two places for one entry, and no two bytes of the bitmap in one place.
  lemma OnePlace(bits: seq<Bitmap>, bsize: nat, data: nat, n: nat, x: nat, o: nat, m: nat, y: nat, p: nat)
    requires Laid(bits, bsize, data) && Sits(bits, n, x, o) && Sits(bits, m, y, p)
    ensures n / NBBY == m / NBBY <==> x == y && o == p
  {
    if x < y {
      StartGrows(bsize, x, y);
    } else if y < x {
      StartGrows(bsize, y, x);
    }
  }

  lemma PlaceInside(bits: seq<Bitmap>, bsize: nat, data: nat, n: nat, x: nat, o: nat)
    requires Laid(bits, bsize, data) && Sits(bits, n, x, o)
    ensures n < data && x < |bits| && o < bsize && o >= bits[x].offset
  {
    var last := |bits| - 1;
    if x < last {
      StartGrows(bsize, x, last);
      assert n / NBBY < bits[last].start;
    }
  }

  // The bitmap that covers byte c, looked for from x on.
  ghost function BlockFrom(bits: seq<Bitmap>, c: nat, x: nat): (y: nat)
    requires x < |bits| && c < bits[|bits| - 1].start + bits[|bits| - 1].len
    ensures x <= y < |bits| && c < bits[y].start + bits[y].len
    ensures forall z | x <= z < y :: c >= bits[z].start + bits[z].len
    decreases |bits| - x
  {
    if c < bits[x].start + bits[x].len then x else BlockFrom(bits, c, x + 1)
  }

  ghost function BlockOf(bits: seq<Bitmap>, bsize: nat, data: nat, n: nat): nat
    requires Laid(bits, bsize, data) && n < data
  {
    BlockFrom(bits, n / NBBY, 0)
  }

  ghost function ByteOf(bits: seq<Bitmap>, bsize: nat, data: nat, n: nat): nat
    requires Laid(bits, bsize, data) && n < data
  {
    var b := bits[BlockOf(bits, bsize, data, n)];
    if n / NBBY >= b.start then b.offset + (n / NBBY - b.start) else 0
  }

  lemma PlaceSits(bits: seq<Bitmap>, bsize: nat, data: nat, n: nat)
    requires Laid(bits, bsize, data) && n < data
    ensures Sits(bits, n, BlockOf(bits, bsize, data, n), ByteOf(bits, bsize, data, n))
  {
    var x := BlockOf(bits, bsize, data, n);
    if x > 0 {
      assert bits[x - 1].start + bits[x - 1].len == StartOf(bsize, x - 1) + bsize - OffsetOf(x - 1);
    }
  }

  // Whatever way the place of an entry was found, it is this one.
  lemma PlaceIs(bits: seq<Bitmap>, bsize: nat, data: nat, n: nat, x: nat, o: nat)
    requires Laid(bits, bsize, data) && Sits(bits, n, x, o)
    ensures n < data && x == BlockOf(bits, bsize, data, n) && o == ByteOf(bits, bsize, data, n)
  {
    PlaceInside(bits, bsize, data, n, x, o);
    PlaceSits(bits, bsize, data, n);
    OnePlace(bits, bsize, data, n, x, o, n, BlockOf(bits, bsize, data, n), ByteOf(bits, bsize, data, n));
  }

  // The locator by division: past the first block, with the bytes its longer header takes away added back.
  function DivisionBlock(n: nat, bsize: nat): (x: int)
    requires bsize > RGRP_BYTES
    ensures x >= 0
  {
    (n + (RGRP_BYTES - META_HEADER_BYTES) * NBBY) / ((bsize - META_HEADER_BYTES) * NBBY)
  }

  function DivisionByte(n: nat, bsize: nat): int
    requires bsize > RGRP_BYTES
  {
    var offset := n + (RGRP_BYTES - META_HEADER_BYTES) * NBBY;
    (offset - DivisionBlock(n, bsize) * ((bsize - META_HEADER_BYTES) * NBBY)) / NBBY
  }

  lemma DivisionSits(bits: seq<Bitmap>, bsize: nat, data: nat, n: nat)
    requires Laid(bits, bsize, data) && n < data
    ensures n < (bits[0].start + bits[0].len) * NBBY ==> Sits(bits, n, 0, bits[0].offset + n / NBBY)
    ensures n >= (bits[0].start + bits[0].len) * NBBY ==>
      var x, byte := DivisionBlock(n, bsize), DivisionByte(n, bsize);
      x < |bits| && byte >= 0 && Sits(bits, n, x, bits[x].offset + byte)
  {
    hide DivisionBlock, DivisionByte;
    if n >= (bits[0].start + bits[0].len) * NBBY {
      var x := BlockOf(bits, bsize, data, n);
      PlaceSits(bits, bsize, data, n);
      PlaceInside(bits, bsize, data, n, x, ByteOf(bits, bsize, data, n));
      StartIs(bsize, x);
      DivisionIs(n, bsize, x, bits[x].start);
    }
  }

  lemma DivisionIs(n: nat, bsize: nat, x: nat, start: nat)
    requires bsize > RGRP_BYTES
    requires start <= n / NBBY < start + bsize - META_HEADER_BYTES
    requires x * (bsize - META_HEADER_BYTES) == start + (RGRP_BYTES - META_HEADER_BYTES)
    ensures DivisionBlock(n, bsize) == x && DivisionByte(n, bsize) == n / NBBY - start
  {
    var k := bsize - META_HEADER_BYTES;
    DivisionArithmetic(n, start, k, x * k);
    MetaPaths.Associate(x, k, NBBY);
    DivideBy(n + (RGRP_BYTES - META_HEADER_BYTES) * NBBY, k * NBBY, x);
  }

  lemma DivisionArithmetic(n: nat, start: nat, k: nat, first: nat)
    requires start <= n / NBBY < start + k && first == start + (RGRP_BYTES - META_HEADER_BYTES)
    ensures
      var offset := n + (RGRP_BYTES - META_HEADER_BYTES) * NBBY;
      first * NBBY <= offset < first * NBBY + k * NBBY && (offset - first * NBBY) / NBBY == n / NBBY - start
  {
  }

  lemma DivideBy(n: nat, d: nat, q: nat)
    requires d > 0 && q * d <= n < q * d + d
    ensures n / d == q
  {
    MetaPaths.DivIsQuot(n, d);
    MetaPaths.QuotRemIs(n, d, q, n - q * d);
  }

  // The blocks of a resource group, and the state of each data block in them.
  type Buffers = seq<seq<bv8>>

  ghost predicate Loaded(buf: Buffers, bits: seq<Bitmap>, bsize: nat) {
    |buf| == |bits| && forall x | 0 <= x < |buf| :: |buf[x]| == bsize
  }

  ghost function StateOf(buf: Buffers, bits: seq<Bitmap>, bsize: nat, data: nat, n: nat): bv8
    requires Laid(bits, bsize, data) && Loaded(buf, bits, bsize) && n < data
  {
    PlaceSits(bits, bsize, data, n);
    PlaceInside(bits, bsize, data, n, BlockOf(bits, bsize, data, n), ByteOf(bits, bsize, data, n));
    Entry(buf[BlockOf(bits, bsize, data, n)][ByteOf(bits, bsize, data, n)], n % NBBY)
  }

  // Entry k of a byte set to a state, as the bitmap code does it: clear by xor, then set by or.
  function WithEntry(b: bv8, k: nat, state: bv8): bv8
    requires k < NBBY && state <= 3
  {
    var cur := Entry(b, k);
    if k == 0 then (b ^ cur) | state
    else if k == 1 then (b ^ (cur << 2)) | (state << 2)
    else if k == 2 then (b ^ (cur << 4)) | (state << 4)
    else (b ^ (cur << 6)) | (state << 6)
  }

  // The same by masking.
  function Masked(b: bv8, k: nat, state: bv8): bv8
    requires k < NBBY && state <= 3
  {
    if k == 0 then (b & !3) | state
    else if k == 1 then (b & !(3 << 2)) | (state << 2)
    else if k == 2 then (b & !(3 << 4)) | (state << 4)
    else (b & !(3 << 6)) | (state << 6)
  }

  lemma EntrySet(b: bv8, k: nat, state: bv8, j: nat)
    requires k < NBBY && j < NBBY && state <= 3
    ensures Entry(WithEntry(b, k, state), j) == if j == k then state else Entry(b, j)
    ensures Masked(b, k, state) == WithEntry(b, k, state)
  {
    hide Entry, WithEntry, Masked;
    if k == 0 { EntrySet0(b, state, j); } else if k == 1 { EntrySet1(b, state, j); }
        else if k == 2 { EntrySet2(b, state, j); } else { EntrySet3(b, state, j); }
  }

  lemma EntrySet0(b: bv8, state: bv8, j: nat)
    requires j < NBBY && state <= 3
    ensures Entry(WithEntry(b, 0, state), j) == if j == 0 then state else Entry(b, j)
    ensures Masked(b, 0, state) == WithEntry(b, 0, state)
  {
  }

  lemma EntrySet1(b: bv8, state: bv8, j: nat)
    requires j < NBBY && state <= 3
    ensures Entry(WithEntry(b, 1, state), j) == if j == 1 then state else Entry(b, j)
    ensures Masked(b, 1, state) == WithEntry(b, 1, state)
  {
  }

  lemma EntrySet2(b: bv8, state: bv8, j: nat)
    requires j < NBBY && state <= 3
    ensures Entry(WithEntry(b, 2, state), j) == if j == 2 then state else Entry(b, j)
    ensures Masked(b, 2, state) == WithEntry(b, 2, state)
  {
  }

  lemma EntrySet3(b: bv8, state: bv8, j: nat)
    requires j < NBBY && state <= 3
    ensures Entry(WithEntry(b, 3, state), j) == if j == 3 then state else Entry(b, j)
    ensures Masked(b, 3, state) == WithEntry(b, 3, state)
  {
  }

  // Writing one entry.
  lemma StateSet(buf: Buffers, bits: seq<Bitmap>, bsize: nat, data: nat, n: nat, x: nat, o: nat, state: bv8)
    requires Laid(bits, bsize, data) && Loaded(buf, bits, bsize) && Sits(bits, n, x, o) && state <= 3
    ensures n < data && x < |buf| && o < |buf[x]|
    ensures
      var buf' := buf[x := buf[x][o := WithEntry(buf[x][o], n % NBBY, state)]];
      && Loaded(buf', bits, bsize)
      && forall m: nat | m < data :: StateOf(buf', bits, bsize, data, m) == if m == n then state
         else StateOf(buf, bits, bsize, data, m)
  {
    PlaceInside(bits, bsize, data, n, x, o);
    var buf' := buf[x := buf[x][o := WithEntry(buf[x][o], n % NBBY, state)]];
    forall m: nat | m < data
      ensures StateOf(buf', bits, bsize, data, m) == if m == n then state else StateOf(buf, bits, bsize, data, m)
    {
      var y, p := BlockOf(bits, bsize, data, m), ByteOf(bits, bsize, data, m);
      PlaceSits(bits, bsize, data, m);
      PlaceInside(bits, bsize, data, m, y, p);
      OnePlace(bits, bsize, data, n, x, o, m, y, p);
      hide Laid, Entry, WithEntry, BlockFrom, Sits, StartOf, BlockOf, ByteOf;
      EntrySet(buf[x][o], n % NBBY, state, m % NBBY);
      SameEntry(n, m);
    }
  }

  lemma SameEntry(n: nat, m: nat)
    ensures n == m <==> n / NBBY == m / NBBY && n % NBBY == m % NBBY
  {
  }

  // Entry e of the bitmap in block x, as the search sees it.
  lemma SliceEntry(buf: Buffers, bits: seq<Bitmap>, bsize: nat, data: nat, x: nat, e: nat)
    requires Laid(bits, bsize, data) && Loaded(buf, bits, bsize) && x < |bits| && e < NBBY * bits[x].len
    ensures x < |buf| && |buf[x]| == bsize && bits[x].offset <= bsize && Align8(bits[x].len) <= bsize - bits[x].offset
    ensures NBBY * bits[x].start + e < data && e / NBBY < |buf[x][bits[x].offset..]|
    ensures EntryAt(buf[x][bits[x].offset..], e) == StateOf(buf, bits, bsize, data, NBBY * bits[x].start + e)
  {
    hide Laid, Entry, BlockOf, ByteOf;
    var n := NBBY * bits[x].start + e;
    SliceFits(bits, bsize, data, x);
    SplitEntry(bits[x].start, e);
    PlaceInside(bits, bsize, data, n, x, bits[x].offset + e / NBBY);
    PlaceIs(bits, bsize, data, n, x, bits[x].offset + e / NBBY);
  }

  lemma SplitEntry(start: nat, e: nat)
    ensures (NBBY * start + e) / NBBY == start + e / NBBY && (NBBY * start + e) % NBBY == e % NBBY
  {
  }

  lemma SliceFits(bits: seq<Bitmap>, bsize: nat, data: nat, x: nat)
    requires Laid(bits, bsize, data) && x < |bits|
    ensures bits[x].offset <= bsize && Align8(bits[x].len) <= bsize - bits[x].offset && 0 < bits[x].len
    ensures NBBY * bits[x].len <= BFITNOENT
    ensures x < |bits| - 1 ==> bits[x + 1].start == bits[x].start + bits[x].len
    ensures x == |bits| - 1 ==> data == NBBY * (bits[x].start + bits[x].len)
    ensures x == 0 ==> bits[x].start == 0
  {
    assert x < |bits| - 1 ==> StartOf(bsize, x + 1) == StartOf(bsize, x) + bsize - OffsetOf(x);
    assert bits[x].offset == OffsetOf(x) && bits[x].start == StartOf(bsize, x);
    hide StartOf;
    RoomAligned(bsize, x);
    AlignFits(bits[x].len, bsize - bits[x].offset);
  }

  lemma RoomAligned(bsize: nat, x: nat)
    requires bsize > RGRP_BYTES && bsize % 8 == 0
    ensures (bsize - OffsetOf(x)) % 8 == 0
  {
  }

  // Every bitmap but the last fills its block.
  lemma BitmapRoom(bits: seq<Bitmap>, bsize: nat, data: nat, x: nat)
    requires Laid(bits, bsize, data) && x < |bits|
    ensures bits[x].offset == OffsetOf(x) && bsize > RGRP_BYTES && bits[x].len <= bsize - bits[x].offset
    ensures x < |bits| - 1 ==> bits[x].len == bsize - bits[x].offset
  {
  }

  // Comparing an entry with the end of a bitmap compares its byte.
  lemma BelowBytes(n: nat, c: nat)
    ensures n < c * NBBY <==> n / NBBY < c
  {
  }

  lemma AlignFits(len: nat, room: nat)
    requires len <= room && room % 8 == 0
    ensures Align8(len) <= room
  {
  }
}
