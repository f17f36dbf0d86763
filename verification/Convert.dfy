/**
 The conversion of an inode's metadata tree from GFS1 to GFS2 in gfs2_convert.c: tear the old tree
 down, free its blocks, and rebuild it with a larger fan-out and perhaps another height.
 */
module Convert {
  import opened MetaPaths
  import opened MetaTrees
  import opened Blocks
  import opened Heights
  import opened TearDown
  import opened Rebuild
  import opened Remap
  import opened Rebyte
  import opened FullDisk

  class Converter {
    const words: nat      // block size in 8-byte words
    const dinode: nat     // address of the inode
    const heightsize: seq<nat>
    const jheightsize: seq<nat>
    var disk: Disk
    var free: set<nat>    // the blocks marked free in the bitmaps
    var iHeight: nat
    var iSize: nat
    var iBlocks: int
    ghost var own: Owners // the tree being built

    // Slots of a GFS2 indirect block, of a GFS1 indirect block, and of the dinode.
    function Inptrs2(): nat requires words >= 64 { words - META_HEADER_WORDS }
    function Inptrs1(): nat requires words >= 64 { words - GFS1_INDIRECT_WORDS }
    function Diptrs(): nat requires words >= 64 { words - DINODE_WORDS }

    function Lay2(): Layout { Layout(dinode, META_HEADER_WORDS) }
    function Lay1(): Layout { Layout(dinode, GFS1_INDIRECT_WORDS) }

    // The blocks marked free are on the disk and in no tree; a GFS2 tree of the given depth is under
    // construction. Blocks above the bottom hold words, those at the bottom have `bottom` cells; all blocks
    // but the dinode and those of journaled data have a GFS2 header.
    ghost predicate Building(depth: nat, bottom: nat)
      reads this
    {
      && words >= 64 && BuildingOf(disk, free, own, Lay2(), words, depth, bottom)
      && Headed(disk, own, depth, bottom != words)
    }

    // The allocator: any free block, or 0 if there is none.
    method MetaAlloc() returns (block: nat)
      requires 0 !in free
      modifies this`free
      ensures old(free) == {} ==> block == 0 && free == {}
      ensures old(free) != {} ==> block in old(free) && free == old(free) - {block}
    {
      if free == {} {
        return 0;
      }
      block :| block in free;
      free := free - {block};
    }

    // lookup_block with create set: the block the slot points to, newly allocated if the slot is empty.
    method LookupBlock(bh: nat, height: nat, mp: seq<nat>) returns (isNew: bool, block: nat)
      requires height < |mp| && bh in disk && 0 !in free
      requires (if height > 0 then META_HEADER_WORDS else DINODE_WORDS) + mp[height] < |disk[bh]|
      modifies this`disk, this`free, this`iBlocks
      ensures
        var o := (if height > 0 then META_HEADER_WORDS else DINODE_WORDS) + mp[height];
        if old(disk)[bh][o] != 0 then
          !isNew && block == old(disk)[bh][o] && disk == old(disk) && free == old(free) && iBlocks == old(iBlocks)
        else if old(free) == {} then
          !isNew && block == 0 && disk == old(disk) && free == old(free) && iBlocks == old(iBlocks)
        else
          && isNew && block in old(free) && free == old(free) - {block} && iBlocks == old(iBlocks) + 1
          && disk == old(disk)[bh := Put(old(disk)[bh], o, block)]
    {
      var ptr := (if height > 0 then META_HEADER_WORDS else DINODE_WORDS) + mp[height];
      isNew := false;
      if disk[bh][ptr] != 0 {
        return false, disk[bh][ptr];
      }
      block := MetaAlloc();
      if block == 0 {
        return;
      }
      disk := disk[bh := Put(disk[bh], ptr, block)];
      iBlocks := iBlocks + 1;
      isNew := true;
    }

    // One level of the loop of fix_metatree and fix_jdatatree that builds the tree down to the block on the path.
    // With `data` set the last block is a data block of `bottom` bytes and gets no header.
    method BuildLevel(bh0: nat, h: nat, depth: nat, mp: seq<nat>, data: bool, bottom: nat, ghost header: nat)
      returns (bh: nat)
      requires Building(depth, bottom) && h < depth < |mp|
      requires WalkTo(disk, Lay2(), mp[..h]) == bh0 && bh0 != 0 && bh0 in own && own[bh0] == mp[..h]
      requires mp[h] < if h == 0 then Diptrs() else Inptrs2()
      requires if data then header == 0 && bottom != words else header == META_HEADER_WORDS && bottom == words
      modifies this`disk, this`free, this`iBlocks, this`own
      ensures free <= old(free) && iBlocks + |free| == old(iBlocks + |free|)
      ensures |own| + |free| == old(|own| + |free|) && GrewWithin(old(own), own, {mp[..h + 1]})
      ensures bh == 0 ==> free == old(free) == {} && forall b | b in own :: own[b] != mp[..h + 1]
      ensures Building(depth, bottom) && (bh != 0 ==> WalkTo(disk, Lay2(), mp[..h + 1]) == bh)
      ensures bh != 0 ==> bh in own && own[bh] == mp[..h + 1]
      ensures bh != 0 ==> SameCells(old(disk), disk, Lay2(), header, depth)
      ensures bh != 0 ==> OthersSame(old(disk), disk, old(own), old(free))
      ensures bh != 0 ==> OwnersGrew(old(own), own, old(free))
    {
      hide Tree, Reached, Cell, WalkTo, OwnersGrew, OthersSame, SameCells, BuildingOf, Ptr, Headed, GrewWithin, Zeros,
           Put, Stamped;
      ghost var disk0, own0, free0, slot := disk, own, free, mp[h];
      LevelFacts(disk, free, own, Lay2(), words, depth, bottom);
      assert mp[..h + 1] == mp[..h] + [slot];
      EmptySlot(disk, free, own, Lay2(), words, depth, bottom, bh0, slot);
      var isNew, block := LookupBlock(bh0, h, mp);
      if block == 0 {
        GrewNothing(own, {mp[..h + 1]});
        return 0;
      }
      var last := data && h == depth - 1;
      LevelBuilt(disk0, free0, own0, Lay2(), words, depth, bottom, bh0, slot, isNew, block, last, header);
      if isNew {
        disk := disk[block := Zeros(if last then bottom else words)];
        own := own[block := own[bh0] + [slot]];
      }
      bh := block;
      if !last {
        disk := disk[bh := Stamped(disk[bh])];
      }
    }

    // The loop itself.
    method BuildPath(depth: nat, mp: seq<nat>, data: bool, bottom: nat, ghost header: nat) returns (ok: bool, bh: nat)
      requires Building(depth, bottom) && depth < |mp|
      requires depth > 0 ==> mp[0] < Diptrs()
      requires forall i | 0 < i < depth :: mp[i] < Inptrs2()
      requires if data then header == 0 && bottom != words else header == META_HEADER_WORDS && bottom == words
      modifies this`disk, this`free, this`iBlocks, this`own
      ensures free <= old(free) && iBlocks + |free| == old(iBlocks + |free|)
      ensures |own| + |free| == old(|own| + |free|) && GrewWithin(old(own), own, Prefixes(mp[..depth]))
      ensures (ok <==> !Missing(own, Prefixes(mp[..depth]))) && (!ok ==> free == {})
      ensures Building(depth, bottom) && (ok ==> WalkTo(disk, Lay2(), mp[..depth]) == bh && bh != 0)
      ensures ok ==> bh in own && own[bh] == mp[..depth]
      ensures ok ==> SameCells(old(disk), disk, Lay2(), header, depth)
      ensures ok ==> OthersSame(old(disk), disk, old(own), old(free)) && OwnersGrew(old(own), own, old(free))
    {
      hide Tree, Reached, Cell, Headed, BuildingOf, SameCells, OthersSame, OwnersGrew, GrewWithin, Ptr;
      bh := dinode;
      LevelsNone(disk, own, free, Lay2(), header, depth, Prefixes(mp[..depth]));
      ok := true;
      assert mp[..0] == [];
      assert WalkTo(disk, Lay2(), []) == dinode;
      LevelFacts(disk, free, own, Lay2(), words, depth, bottom);
      var h := 0;
      while h < depth
        invariant 0 <= h <= depth
        invariant Building(depth, bottom) && WalkTo(disk, Lay2(), mp[..h]) == bh && bh != 0 && bh in own
        invariant own[bh] == mp[..h]
        invariant SameCells(old(disk), disk, Lay2(), header, depth)
        invariant OthersSame(old(disk), disk, old(own), old(free)) && OwnersGrew(old(own), own, old(free))
        invariant free <= old(free) && iBlocks + |free| == old(iBlocks + |free|)
        invariant |own| + |free| == old(|own| + |free|) && GrewWithin(old(own), own, Prefixes(mp[..depth]))
      {
        assert mp[..depth][..h + 1] == mp[..h + 1] && mp[..h + 1] in Prefixes(mp[..depth]);
        ghost var disk1, own1, free1 := disk, own, free;
        bh := BuildLevel(bh, h, depth, mp, data, bottom, header);
        GrewMore(old(own), own1, own, {mp[..h + 1]}, Prefixes(mp[..depth]));
        if bh == 0 {
          return false, 0;
        }
        LevelsJoined(old(disk), old(own), old(free), disk1, own1, free1, disk, own, Lay2(), header, depth);
        h := h + 1;
      }
      BuiltTree(disk, free, own, Lay2(), words, depth, bottom);
      NoneMissing(disk, Lay2(), own, depth, mp[..depth]);
    }

    // The carry of the rebuilding loops: past the end of a bottom block the path moves on to the next one.
    method Advance(mp0: seq<nat>, height: nat, amount: nat) returns (mp: seq<nat>)
      requires words >= 64 && height < |mp0|
      requires height > 0 ==> mp0[height] + amount >= Inptrs2() && Proper(mp0[..height], Inptrs2())
      ensures |mp| == |mp0|
      ensures if height == 0 then mp == mp0[0 := mp0[0] + amount]
              else mp[height] == 0 && mp[..height] == Digits(Value(mp0[..height], Inptrs2()) + 1, Inptrs2(), height)
    {
      hide Carrying, Digits, Value, Proper;
      CarryStart(mp0, height, amount, Inptrs2());
      mp := Put(mp0, height, mp0[height] + amount);
      var h := height;
      while h > 0
        invariant h <= height && |mp| == |mp0|
        invariant Carrying(mp0, mp, height, h, amount, Inptrs2())
        decreases h
      {
        if mp[h] >= Inptrs2() {
          CarryStep(mp0, mp, height, h, amount, Inptrs2());
          mp := Put(mp, h, 0);
          mp := Put(mp, h - 1, mp[h - 1] + 1);
          h := h - 1;
          continue;
        }
        break;
      }
      CarryEnd(mp0, mp, height, h, amount, Inptrs2());
    }

    // unstuff_dinode as the conversion calls it, with the size set to zero.
    method UnstuffDinode()
      requires words >= 64 && iSize == 0 && dinode in disk && |disk[dinode]| == words
      modifies this`disk, this`iHeight
      ensures disk == old(disk)[dinode := old(disk)[dinode][..DINODE_WORDS] + Zeros(words - DINODE_WORDS)]
      ensures iHeight == 1
    {
      disk := disk[dinode := disk[dinode][..DINODE_WORDS] + Zeros(words - DINODE_WORDS)];
      iHeight := 1;
    }

    // Before the first pointer is written the dinode has no pointers and its height is zero.
    ghost predicate Started()
      reads this
    {
      iHeight == 0 ==> iSize == 0 && words >= 64 && Blank(disk, dinode, words)
    }

    // The shape of the tree being built: blocks of pointers, below them either the blocks they point to,
    // which belong to the file and are not touched, or blocks of journaled data, which are.
    ghost function NewShape(data: bool, depth: nat): (g: Shape)
      requires words >= 64
      ensures Sound(g) && g.depth == depth
    {
      if data then Shape(0, 8 * words, Inptrs2(), depth) else Shape(META_HEADER_WORDS, Inptrs2(), Inptrs2(), depth)
    }

    function Bottom(data: bool): nat {
      if data then 8 * words else words
    }

    // One turn of the loop of fix_metatree and fix_jdatatree: as much of `src` as fits into the bottom block on the
    // path. It fails when there is no free block and one is missing on the path.
    method WriteRun(mp: seq<nat>, height: nat, data: bool, src: seq<nat>, ptramt: nat, ghost pos: nat)
      returns (ok: bool, amount: nat, hdrsize: nat)
      requires Building(height, Bottom(data)) && |src| > 0 && (data ==> height > 0)
      requires OnPath(mp, pos, NewShape(data, height)) && ptramt == mp[height]
      requires pos < Room(NewShape(data, height), Diptrs())
      modifies this`disk, this`free, this`iBlocks, this`own
      ensures free <= old(free) && iBlocks + |free| == old(iBlocks + |free|)
      ensures |own| + |free| == old(|own| + |free|) && Building(height, Bottom(data))
      ensures GrewWithin(old(own), own, Prefixes(PathOf(pos, NewShape(data, height))))
      ensures ok <==> !Missing(own, Prefixes(PathOf(pos, NewShape(data, height))))
      ensures !ok ==> free == {}
      ensures ok ==> hdrsize == if data then 0 else if height > 0 then META_HEADER_WORDS else DINODE_WORDS
      ensures ok ==> hdrsize + ptramt < Bottom(data)
      ensures ok ==>
        amount == if |src| > Bottom(data) - hdrsize - ptramt then Bottom(data) - hdrsize - ptramt else |src|
      ensures ok ==> Progress(old(disk), old(own), old(free), old(iBlocks), disk, own, free, iBlocks,
                              Lay2(), NewShape(data, height), pos, src[..amount])
    {
      hide BuildingOf, Cell, WalkTo, Tree, Digits, Wrote, SameCells, Reached, PathOf, SlotOf, OthersSame, OwnersGrew,
           Pow, Proper, Room, Headed, GrewWithin, Prefixes, Missing;
      ghost var g := NewShape(data, height);
      PathInside(pos, g, Diptrs());
      assert forall i | 0 <= i < height :: mp[i] == mp[..height][i];
      var bh;
      ok, bh := BuildPath(height, mp, data, Bottom(data), if data then 0 else META_HEADER_WORDS);
      if !ok {
        return false, 0, 0;
      }
      ghost var disk1 := disk;
      hdrsize := if data then 0 else if height > 0 then META_HEADER_WORDS else DINODE_WORDS;
      amount := |src|;
      if amount > Bottom(data) - hdrsize - ptramt {
        amount := Bottom(data) - hdrsize - ptramt;
      }
      WrittenBlocks(disk, free, own, Lay2(), words, g, Bottom(data), pos, src[..amount], bh);
      HeadedWritten(disk, own, height, data, bh, hdrsize + ptramt, src[..amount]);
      disk := disk[bh := Copied(disk[bh], hdrsize + ptramt, src[..amount])];
      RunWritten(old(disk), disk1, disk, old(own), old(free), own, Lay2(), g, pos, src[..amount], bh);
    }

    // "advance to the next metablock" after a bottom block was filled up.
    method NextMetablock(mp0: seq<nat>, height: nat, amount: nat, ghost data: bool, ghost pos: nat)
      returns (mp: seq<nat>)
      requires words >= 64 && OnPath(mp0, pos, NewShape(data, height))
      requires height > 0 ==> mp0[height] + amount == NewShape(data, height).slots
      ensures |mp| == |mp0| && OnPath(mp, pos + amount, NewShape(data, height))
      ensures height > 0 ==> mp[height] == 0
    {
      hide Digits, Proper, PathOf, SlotOf, Value;
      CarryIsNext(mp0, mp0, pos, NewShape(data, height), amount);
      mp := Advance(mp0, height, amount);
      CarryIsNext(mp0, mp, pos, NewShape(data, height), amount);
    }

    // WriteRun and, if the bottom block is full now, the carry.
    method FixTurn(mp0: seq<nat>, height: nat, data: bool, src: seq<nat>, ptramt: nat, ghost pos: nat)
      returns (ok: bool, amount: nat, mp: seq<nat>)
      requires Building(height, Bottom(data)) && |src| > 0 && (data ==> height > 0)
      requires OnPath(mp0, pos, NewShape(data, height)) && ptramt == mp0[height]
      requires pos + |src| <= Room(NewShape(data, height), Diptrs())
      modifies this`disk, this`free, this`iBlocks, this`own
      ensures iBlocks + |free| == old(iBlocks + |free|)
      ensures |own| + |free| == old(|own| + |free|) && Building(height, Bottom(data))
      ensures GrewWithin(old(own), own, Prefixes(PathOf(pos, NewShape(data, height))))
      ensures ok <==> !Missing(own, Prefixes(PathOf(pos, NewShape(data, height))))
      ensures !ok ==> free == {}
      ensures ok ==> 0 < amount <= |src| && |mp| == |mp0|
      ensures ok ==> PathOf(pos + amount - 1, NewShape(data, height)) == PathOf(pos, NewShape(data, height))
      ensures ok && amount < |src| ==>
        OnPath(mp, pos + amount, NewShape(data, height)) && mp[height] == 0 && height > 0
        && ptramt + amount == NewShape(data, height).slots
      ensures ok ==> Progress(old(disk), old(own), old(free), old(iBlocks), disk, own, free, iBlocks,
                              Lay2(), NewShape(data, height), pos, src[..amount])
    {
      assert height == 0 ==> pos + |src| <= Diptrs();
      assert height == 0 ==> mp0[0] == pos;
      hide BuildingOf, Tree, Digits, Pow, Proper, Progress, PathOf, SlotOf, OnPath, Room, Headed, GrewWithin, Prefixes,
           Missing;
      var hdrsize;
      ok, amount, hdrsize := WriteRun(mp0, height, data, src, ptramt, pos);
      mp := mp0;
      if ok {
        LastOfRun(mp0, pos, NewShape(data, height), amount);
      }
      if ok && hdrsize + ptramt + amount >= Bottom(data) {
        mp := NextMetablock(mp0, height, amount, data, pos);
      }
    }

    method UnstuffIfNeeded()
      requires words >= 64 && Started() && dinode in disk && |disk[dinode]| == words
      modifies this`disk, this`iHeight
      ensures disk == old(disk) && iHeight > 0
    {
      if iHeight == 0 {
        UnstuffDinode();
        assert disk[dinode] == old(disk)[dinode];
      }
    }

    // The paths a run from base on needs blocks for: what one GFS1 block holds spans at most two GFS2 blocks, those
    // of its first and of its last cell.
    ghost function Ends(data: bool, height: nat, base: nat, size: nat): set<seq<nat>>
      requires words >= 64 && size > 0
    {
      Prefixes(PathOf(base, NewShape(data, height))) + Prefixes(PathOf(base + size - 1, NewShape(data, height)))
    }

    // fix_metatree, and with `data` set fix_jdatatree: write `src` into the cells base, base + 1, ... of the tree.
    method FixTree(mp0: seq<nat>, height: nat, data: bool, src: seq<nat>, ghost base: nat) returns (ok: bool)
      requires Building(height, Bottom(data)) && Started() && |src| > 0 && (data ==> height > 0)
      requires OnPath(mp0, base, NewShape(data, height)) && base + |src| <= Room(NewShape(data, height), Diptrs())
      modifies this`disk, this`free, this`iBlocks, this`own, this`iHeight
      ensures Building(height, Bottom(data)) && iHeight > 0 && iBlocks + |free| == old(iBlocks + |free|)
      ensures ok ==> Progress(old(disk), old(own), old(free), old(iBlocks), disk, own, free, iBlocks,
                              Lay2(), NewShape(data, height), base, src)
      // blocks are taken for the two ends only, and it fails only if there is none left for one of them
      ensures |own| + |free| == old(|own| + |free|)
      ensures |src| <= NewShape(data, height).slots ==> GrewWithin(old(own), own, Ends(data, height, base, |src|))
      ensures |src| <= NewShape(data, height).slots ==> (ok <==> !Missing(own, Ends(data, height, base, |src|)))
      ensures !ok ==> free == {}
    {
      hide BuildingOf, Tree, Digits, Pow, Progress, PathOf, SlotOf, Room, Proper, Headed, GrewWithin, Prefixes, Missing;
      LevelFacts(disk, free, own, Lay2(), words, height, Bottom(data));
      UnstuffIfNeeded();
      var mp := mp0;
      var size := |src|;
      var copied, ptramt := 0, mp[height];
      ghost var turns, g, ends := 0, NewShape(data, height), Ends(data, height, base, |src|);
      NoProgress(disk, own, free, iBlocks, Lay2(), g, base);
      GrewNothing(own, ends);
      assert src[..0] == [];
      while copied < size
        invariant 0 <= copied <= size && |mp| == |mp0| && Building(height, Bottom(data)) && iHeight > 0
        invariant copied < size ==> OnPath(mp, base + copied, g) && ptramt == mp[height]
        invariant Progress(old(disk), old(own), old(free), old(iBlocks), disk, own, free, iBlocks,
                           Lay2(), g, base, src[..copied])
        invariant turns == 0 ==> copied == 0
        invariant turns > 0 && copied < size ==> height > 0 && ptramt == 0
        invariant size <= g.slots ==> turns <= 2 && (turns == 2 ==> copied == size)
        invariant turns > 0 ==> !Missing(own, Prefixes(PathOf(base, g)))
        invariant copied == size ==> !Missing(own, Prefixes(PathOf(base + size - 1, g)))
        invariant |own| + |free| == old(|own| + |free|) && iBlocks + |free| == old(iBlocks + |free|)
        invariant size <= g.slots ==> GrewWithin(old(own), own, ends)
      {
        ghost var disk1, own1, free1, blocks1 := disk, own, free, iBlocks;
        ghost var path := Prefixes(PathOf(base + copied, g));
        if size <= g.slots && turns > 0 {
          SameBottom(base + copied, g, size - copied, base + size - 1);
        }
        assert size <= g.slots ==> path <= ends;
        var amount;
        ok, amount, mp := FixTurn(mp, height, data, src[copied..], ptramt, base + copied);
        if size <= g.slots {
          GrewMore(old(own), own1, own, path, ends);
          if !ok {
            MissingMore(own, path, ends);
          }
        }
        if !ok {
          return;
        }
        if turns > 0 {
          StillThere(own1, own, Prefixes(PathOf(base, g)), path);
        }
        ProgressAdded(old(disk), old(own), old(free), old(iBlocks), disk1, own1, free1, blocks1, disk, own, free,
                      iBlocks,
                      Lay2(), g, base, src, copied, amount);
        copied := copied + amount;
        ptramt := 0;
        turns := turns + 1;
      }
      assert src[..copied] == src;
      BothThere(own, Prefixes(PathOf(base, g)), Prefixes(PathOf(base + size - 1, g)));
      ok := true;
    }

    // mp_gfs1_to_gfs2: the same logical block as a path of the other tree, in unsigned 64-bit arithmetic.
    method MpGfs1ToGfs2(gfs1H: nat, gfs2H: nat, gfs1mp: seq<nat>) returns (gfs2mp: seq<nat>)
      requires words >= 64 && 0 < gfs1H <= MAX_META_HEIGHT && 0 < gfs2H <= MAX_META_HEIGHT
      requires |gfs1mp| == MAX_META_HEIGHT
      requires Pow(Inptrs2(), gfs2H - 1) < TWO_64
      ensures |gfs2mp| == MAX_META_HEIGHT
      ensures gfs2mp[..gfs2H] == Digits(Value(gfs1mp[..gfs1H], Inptrs1()) % TWO_64, Inptrs2(), gfs2H)
    {
      hide Pow, Quot, Digits, Value;
      var gfs1factor := FactorsOf(gfs1H, Inptrs1(), 1);
      var gfs2factor := FactorsOf(gfs2H, Inptrs2(), 1);
      WrappedFits(gfs2factor, 1, Inptrs2(), gfs2H);
      var lblock := PathSum(gfs1H, gfs1mp, gfs1factor, Inptrs1(), 1);
      SmallQuot(lblock);
      var rest;
      gfs2mp, rest := PathDigits(lblock, gfs2H, gfs2factor, Inptrs2(), 1);
    }

    // "Convert from gfs1 to a logical block": the sum of the digits times their factors.
    method PathSum(height: nat, mp: seq<nat>, factor: seq<nat>, ghost f: nat, ghost unit: nat) returns (lblock: nat)
      requires 0 < height <= MAX_META_HEIGHT && |mp| == |factor| == MAX_META_HEIGHT && Wrapped(factor, unit, f, height)
      ensures lblock == Value(mp[..height], f) * unit % TWO_64
    {
      ghost var w := Weights(unit, f, height);
      lblock := 0;
      var h := 0;
      while h < height
        invariant 0 <= h <= height && lblock == WeightedSum(mp, w, h) % TWO_64
      {
        WrapSum(WeightedSum(mp, w, h), mp[h], w[h]);
        lblock := (lblock + mp[h] * factor[h]) % TWO_64;
        h := h + 1;
      }
      SumIsValue(mp, w, unit, f, height, height);
      PowZero(f);
    }

    // The multiplication factors for each height.
    method FactorsOf(height: nat, f: nat, unit: nat) returns (factor: seq<nat>)
      requires 0 < height <= MAX_META_HEIGHT && unit < TWO_64
      ensures |factor| == MAX_META_HEIGHT && Wrapped(factor, unit, f, height)
    {
      hide Pow;
      factor := Zeros(MAX_META_HEIGHT);
      factor := Put(factor, height - 1, unit);
      PowZero(f);
      var h := height - 1;
      while h > 0
        invariant 0 <= h < height && |factor| == MAX_META_HEIGHT
        invariant forall i | h <= i < height :: factor[i] == Pow(f, height - 1 - i) * unit % TWO_64
      {
        ghost var p := Pow(f, height - 1 - h);
        PowNext(f, height - 1 - h);
        Associate(p, f, unit);
        Associate(p, unit, f);
        WrapProduct(p * unit, f);
        factor := Put(factor, h - 1, factor[h] * f % TWO_64);
        h := h - 1;
      }
    }

    // "Convert from a logical block back": peel the digits off, most significant first.
    method PathDigits(n: nat, height: nat, factor: seq<nat>, ghost f: nat, ghost unit: nat)
      returns (mp: seq<nat>, rest: nat)
      requires f > 0 && unit > 0 && 0 < height <= MAX_META_HEIGHT && |factor| == MAX_META_HEIGHT
      requires Factors(factor, unit, f, height)
      ensures |mp| == MAX_META_HEIGHT && mp[..height] == Digits(Quot(n, unit), f, height) && rest == Rem(n, unit)
    {
      hide Pow, Quot, Rem, Digits, Factors, Peeling;
      mp := Zeros(MAX_META_HEIGHT);
      rest := n;
      var h := 0;
      PeelStart(n, unit, f, height, factor, mp);
      while h < height
        invariant 0 <= h <= height && |mp| == MAX_META_HEIGHT && Peeling(n, unit, f, height, factor, mp, h, rest)
      {
        PeelStep(n, unit, f, height, factor, mp, h, rest);
        mp := Put(mp, h, rest / factor[h]);
        rest := rest % factor[h];
        h := h + 1;
      }
      PeelEnd(n, unit, f, height, factor, mp, rest);
    }

    // jdata_mp_gfs1_to_gfs2: the same file offset as a path of the other tree, whose last digit counts bytes.
    // The length is cut at the end of the file. All in unsigned 64-bit arithmetic.
    method JdataMpGfs1ToGfs2(gfs1H: nat, gfs2H: nat, gfs1mp: seq<nat>, len0: nat, dinodeSize: nat)
      returns (gfs2mp: seq<nat>, len: nat, ghost offset: nat)
      requires 64 <= words < 0x1000_0000 && 0 < gfs1H <= MAX_META_HEIGHT && |gfs1mp| == MAX_META_HEIGHT
      requires 0 < gfs2H < MAX_META_HEIGHT && Pow(Inptrs2(), gfs2H - 1) * (8 * words) < TWO_64
      ensures offset == Value(gfs1mp[..gfs1H], Inptrs1()) * (8 * (words - META_HEADER_WORDS))
      ensures len == if (dinodeSize - offset) % TWO_64 < len0 then (dinodeSize - offset) % TWO_64 else len0
      ensures |gfs2mp| == MAX_META_HEIGHT && OnPath(gfs2mp, offset % TWO_64, NewShape(true, gfs2H))
    {
      hide Pow, Quot, Rem, Digits, Value, Wrapped, Factors;
      var gfs1factor := FactorsOf(gfs1H, Inptrs1(), 8 * (words - META_HEADER_WORDS));
      var gfs2factor := FactorsOf(gfs2H, Inptrs2(), 8 * words);
      WrappedFits(gfs2factor, 8 * words, Inptrs2(), gfs2H);
      var start := PathSum(gfs1H, gfs1mp, gfs1factor, Inptrs1(), 8 * (words - META_HEADER_WORDS));
      offset := Value(gfs1mp[..gfs1H], Inptrs1()) * (8 * (words - META_HEADER_WORDS));
      WrapDifference(dinodeSize, offset);
      len := len0;
      if (dinodeSize - start) % TWO_64 < len {
        len := (dinodeSize - start) % TWO_64;
      }
      var rest;
      gfs2mp, rest := PathDigits(start, gfs2H, gfs2factor, Inptrs2(), 8 * words);
      ghost var path := gfs2mp[..gfs2H];
      // the factor of the last digit is 1
      gfs2mp := Put(gfs2mp, gfs2H, rest);
      assert gfs2mp[..gfs2H] == path;
    }

    // get_inode_metablocks: list every metadata block with its path and its pointers, level by level; wipe
    // their pointers and free them so that a full file system can be converted.
    method GetInodeMetablocks(ghost o: OldInode) returns (blocks: seq<Blocklist>, ghost pos: map<nat, nat>)
      requires iHeight > 0 && o == OldInode(disk, free, Layout(dinode, GFS1_INDIRECT_WORDS), words, o.own, iHeight - 1)
      requires OldTree(o.disk, o.free, o.lay, o.words, o.own, o.depth)
      modifies this`disk, this`free, this`iBlocks
      ensures Tearing(o, disk, free, blocks, pos, |blocks|, 0) && pos.Keys == o.own.Keys
      ensures iBlocks + |free| == old(iBlocks + |free|)
    {
      hide *;
      blocks, pos := ListDinode(o);
      var idx := 0;
      while idx < |blocks|
        invariant idx <= |blocks|
        invariant Tearing(o, disk, free, blocks, pos, idx, 0)
        invariant iBlocks + |free| == old(iBlocks + |free|)
        decreases |o.own| - idx
      {
        TearSize(o, disk, free, blocks, pos, idx, 0);
        blocks, pos := ListBlock(blocks, idx, pos, o);
        idx := idx + 1;
      }
      TearEnd(o, disk, free, blocks, pos);
    }

    // "Add dinode block to the list".
    method ListDinode(ghost o: OldInode) returns (blocks: seq<Blocklist>, ghost pos: map<nat, nat>)
      requires iHeight > 0 && o == OldInode(disk, free, Layout(dinode, GFS1_INDIRECT_WORDS), words, o.own, iHeight - 1)
      requires OldTree(o.disk, o.free, o.lay, o.words, o.own, o.depth)
      modifies this`disk
      ensures Tearing(o, disk, free, blocks, pos, 0, 0)
    {
      hide *;
      TearStart(o);
      var first := Blocklist(dinode, Zeros(MAX_META_HEIGHT), 0,
                             disk[dinode][DINODE_WORDS..] + Zeros(DINODE_WORDS - GFS1_INDIRECT_WORDS));
      disk := disk[dinode := disk[dinode][..DINODE_WORDS] + Zeros(words - DINODE_WORDS)];
      blocks, pos := [first], map[dinode := 0];
    }

    // The body of the loop: only blocks above the bottom lead to metadata blocks.
    method ListBlock(blocks0: seq<Blocklist>, idx: nat, ghost pos0: map<nat, nat>, ghost o: OldInode)
      returns (blocks: seq<Blocklist>, ghost pos: map<nat, nat>)
      requires words == o.words && o.depth == iHeight - 1 && idx < |blocks0|
      requires Tearing(o, disk, free, blocks0, pos0, idx, 0)
      modifies this`disk, this`free, this`iBlocks
      ensures |blocks| > idx && Tearing(o, disk, free, blocks, pos, idx + 1, 0)
      ensures iBlocks + |free| == old(iBlocks + |free|)
    {
      hide *;
      blocks, pos := blocks0, pos0;
      TearFacts(o, disk, free, blocks, pos, idx, 0);
      if blocks[idx].height >= iHeight - 1 {
        TearBlock(o, disk, free, blocks, pos, idx, 0);
        return;
      }
      blocks, pos := ListPointers(blocks, idx, pos, o);
    }

    // The inner loop: list what the pointers of block idx lead to.
    method ListPointers(blocks0: seq<Blocklist>, idx: nat, ghost pos0: map<nat, nat>, ghost o: OldInode)
      returns (blocks: seq<Blocklist>, ghost pos: map<nat, nat>)
      requires words >= 64 && words == o.words && o.depth == iHeight - 1 && idx < |blocks0|
      requires blocks0[idx].height < iHeight - 1
      requires Tearing(o, disk, free, blocks0, pos0, idx, 0)
      modifies this`disk, this`free, this`iBlocks
      ensures |blocks| > idx
      ensures Tearing(o, disk, free, blocks, pos, idx + 1, 0)
      ensures iBlocks + |free| == old(iBlocks + |free|)
    {
      hide *;
      blocks, pos := blocks0, pos0;
      var ptrnum := 0;
      TearFacts(o, disk, free, blocks, pos, idx, 0);
      while ptrnum < words - GFS1_INDIRECT_WORDS
        invariant 0 <= ptrnum <= words - GFS1_INDIRECT_WORDS && |blocks| > idx && blocks[idx] == blocks0[idx]
        invariant Tearing(o, disk, free, blocks, pos, idx, ptrnum)
        invariant iBlocks + |free| == old(iBlocks + |free|)
      {
        if blocks[idx].ptrbuf[ptrnum] == 0 {
          TearNone(o, disk, free, blocks, pos, idx, ptrnum);
        } else {
          blocks, pos := ListOne(blocks, idx, ptrnum, pos, o);
        }
        ptrnum := ptrnum + 1;
      }
      TearBlock(o, disk, free, blocks, pos, idx, ptrnum);
    }

    // List, wipe and free the block in one slot.
    method ListOne(blocks0: seq<Blocklist>, idx: nat, ptrnum: nat, ghost pos0: map<nat, nat>, ghost o: OldInode)
      returns (blocks: seq<Blocklist>, ghost pos: map<nat, nat>)
      requires words >= 64 && words == o.words && o.depth == iHeight - 1 && idx < |blocks0|
      requires blocks0[idx].height < iHeight - 1
      requires Tearing(o, disk, free, blocks0, pos0, idx, ptrnum)
      requires ptrnum < |blocks0[idx].ptrbuf| && blocks0[idx].ptrbuf[ptrnum] != 0
      modifies this`disk, this`free, this`iBlocks
      ensures |blocks| > idx && blocks[idx] == blocks0[idx]
      ensures Tearing(o, disk, free, blocks, pos, idx, ptrnum + 1)
      ensures iBlocks + |free| == old(iBlocks + |free|)
    {
      hide *;
      TearFacts(o, disk, free, blocks0, pos0, idx, ptrnum);
      var blk := blocks0[idx];
      var block := blk.ptrbuf[ptrnum];
      var mp := ExtendPath(blk.mp, blk.height, ptrnum);
      TearOne(o, disk, free, blocks0, pos0, idx, ptrnum, mp);
      var newblk := Blocklist(block, mp, blk.height + 1, disk[block][GFS1_INDIRECT_WORDS..]);
      blocks, pos := blocks0 + [newblk], pos0[block := |blocks0|];
      disk := disk[block := disk[block][..GFS1_INDIRECT_WORDS] + Zeros(words - GFS1_INDIRECT_WORDS)];
      iBlocks := iBlocks - 1;
      free := free + {block};
    }

    // Build the path from our predecessor's.
    method ExtendPath(mp0: seq<nat>, height: nat, ptrnum: nat) returns (mp: seq<nat>)
      requires |mp0| == MAX_META_HEIGHT && height < MAX_META_HEIGHT
      ensures |mp| == MAX_META_HEIGHT && mp[..height + 1] == mp0[..height] + [ptrnum]
    {
      mp := Zeros(MAX_META_HEIGHT);
      var h := 0;
      while h < height
        invariant 0 <= h <= height && |mp| == MAX_META_HEIGHT && mp[..h] == mp0[..h]
      {
        ghost var before := mp;
        mp := Put(mp, h, mp0[h]);
        assert mp[..h + 1] == before[..h] + [mp0[h]];
        h := h + 1;
      }
      ghost var prefix := mp[..h];
      mp := Put(mp, h, ptrnum);
      assert mp[..h + 1] == prefix + [ptrnum];
    }

    // "truncate the data at the start and end of the buffers": the first pointer and how many there are.
    method TrimBuffer(ptrbuf: seq<nat>) returns (ptrnum: nat, len: nat)
      ensures Trimmed(ptrbuf, ptrnum, len)
    {
      ptrnum, len := 0, |ptrbuf|;
      while ptrnum < |ptrbuf|
        invariant ptrnum <= |ptrbuf| && len == |ptrbuf| - ptrnum
        invariant forall i | 0 <= i < ptrnum :: ptrbuf[i] == 0
      {
        if ptrbuf[ptrnum] != 0 {
          break;
        }
        ptrnum, len := ptrnum + 1, len - 1;
      }
      var ptr2: int := |ptrbuf| - 1;
      while len > 0 && ptrbuf[ptr2] == 0
        invariant ptrnum + len <= |ptrbuf| && ptr2 == ptrnum + len - 1
        invariant forall i | 0 <= i < ptrnum || ptrnum + len <= i < |ptrbuf| :: ptrbuf[i] == 0
      {
        ptr2, len := ptr2 - 1, len - 1;
      }
    }

    // The 64-bit numbers of mp_gfs1_to_gfs2 do not wrap around for a tree of this height.
    ghost predicate Addressed(height: nat) {
      && 64 <= words < 0x1000_0000 && height > 0
      && Pow(Inptrs2(), height - 1) < TWO_64 && Room(NewShape(false, height - 1), Diptrs()) < TWO_64
    }

    // fix_ind_reg_or_dir: put the pointers of one block of the old tree where they belong in the new one.
    method FixIndRegOrDir(diHeight: nat, gfs2Hgt: nat, blk: Blocklist)
      returns (ok: bool, ghost ptrnum: nat, ghost len: nat, ghost base: nat)
      requires 1 < diHeight <= MAX_META_HEIGHT && 0 < gfs2Hgt <= MAX_META_HEIGHT && Addressed(gfs2Hgt)
      requires |blk.mp| == MAX_META_HEIGHT && blk.height == diHeight - 1
      requires |blk.ptrbuf| <= words - META_HEADER_WORDS
      requires Building(gfs2Hgt - 1, words) && Started()
      requires forall i: nat, l: nat | Trimmed(blk.ptrbuf, i, l) && l > 0 ::
        Value(blk.mp[..diHeight - 1] + [i], Inptrs1()) + l <= Room(NewShape(false, gfs2Hgt - 1), Diptrs())
      modifies this`disk, this`free, this`iBlocks, this`own, this`iHeight
      ensures ptrnum + len <= |blk.ptrbuf| && Trimmed(blk.ptrbuf, ptrnum, len)
      ensures base == Value(blk.mp[..diHeight - 1] + [ptrnum], Inptrs1())
      ensures Building(gfs2Hgt - 1, words) && Started() && iBlocks + |free| == old(iBlocks + |free|)
      ensures ok ==> Progress(old(disk), old(own), old(free), old(iBlocks), disk, own, free, iBlocks,
                              Lay2(), NewShape(false, gfs2Hgt - 1), base, blk.ptrbuf[ptrnum..ptrnum + len])
      ensures len == 0 ==> ok && disk == old(disk) && own == old(own) && free == old(free)
      ensures |own| + |free| == old(|own| + |free|)
      ensures len > 0 ==> GrewWithin(old(own), own, Ends(false, gfs2Hgt - 1, base, len))
      ensures !ok ==> free == {} && len > 0 && Missing(own, Ends(false, gfs2Hgt - 1, base, len))
    {
      hide BuildingOf, Tree, Progress, Digits, Value, Pow, Trimmed, OnPath, Room, Headed, GrewWithin, Missing, Ends;
      var first, size := TrimBuffer(blk.ptrbuf);
      ptrnum, len := first, size;
      var mp := Put(blk.mp, diHeight - 1, first);
      assert mp[..diHeight] == blk.mp[..diHeight - 1] + [first];
      base := Value(mp[..diHeight], Inptrs1());
      var gfs2mp := MpGfs1ToGfs2(diHeight, gfs2Hgt, mp);
      var height := blk.height + gfs2Hgt - diHeight;
      ok := true;
      if size > 0 {
        OnPathDigits(gfs2mp, base, NewShape(false, height));
        ok := FixTree(gfs2mp, height, false, blk.ptrbuf[first..first + size], base);
      } else {
        assert blk.ptrbuf[first..first + size] == [];
        NoProgress(disk, own, free, iBlocks, Lay2(), NewShape(false, gfs2Hgt - 1), base);
      }
    }

    // The state of the second run through the list, k blocks of it done.
    ghost predicate Remapping(o: OldInode, blocks: seq<Blocklist>, pos: map<nat, nat>, k: nat, gfs2Hgt: nat)
      reads this
    {
      && Fresh(o, gfs2Hgt) && k <= |blocks|
      && Moving(o, blocks, pos, k, disk, own, free, Lay2(), NewShape(false, gfs2Hgt - 1))
    }

    // What holds during the second run whether or not there are enough blocks.
    ghost predicate Fresh(o: OldInode, gfs2Hgt: nat)
      reads this
    {
      && Addressed(gfs2Hgt) && o.words == words && o.lay == Lay1() && gfs2Hgt <= MAX_META_HEIGHT &&
         0 < o.depth < MAX_META_HEIGHT
      && Building(gfs2Hgt - 1, words) && Started()
      && Fitting(o, Room(NewShape(false, gfs2Hgt - 1), Diptrs()))
      && OnlyNeeded(o, own, NewShape(false, gfs2Hgt - 1), Diptrs())
    }

    // The paths at which the new tree has blocks below the dinode.
    ghost function Needed(o: OldInode, gfs2Hgt: nat): set<seq<nat>>
      requires words >= 64 && o.words >= 64 && gfs2Hgt > 0
    {
      NeededPaths(o, NewShape(false, gfs2Hgt - 1), Diptrs())
    }

    // One block of the list: only blocks that hold data block pointers are moved.
    method AdjustBlock(blk: Blocklist, diHeight: nat, gfs2Hgt: nat, ghost o: OldInode, ghost blocks: seq<Blocklist>,
                       ghost pos: map<nat, nat>, ghost k: nat) returns (ok: bool)
      requires Remapping(o, blocks, pos, k, gfs2Hgt) && k < |blocks| && blk == blocks[k] && diHeight == o.depth + 1
      modifies this`disk, this`free, this`iBlocks, this`own, this`iHeight
      ensures Fresh(o, gfs2Hgt) && iBlocks + |free| == old(iBlocks + |free|) && |own| + |free| == old(|own| + |free|)
      ensures ok ==> Remapping(o, blocks, pos, k + 1, gfs2Hgt)
      ensures !ok ==> free == {} && Missing(own, Needed(o, gfs2Hgt))
    {
      hide BuildingOf, Moving, Trimmed, Pow, Fitting, At, Wrote, Value, Room, Headed, GrewWithin, Missing, Prefixes,
           OldAt, OnlyNeeded, PathOf, NeededPaths, Progress;
      ghost var g := NewShape(false, gfs2Hgt - 1);
      if blk.height != diHeight - 1 {
        MovingAbove(o, blocks, pos, k, disk, own, free, Lay2(), g);
        return true;
      }
      MovingItem(o, blocks, pos, k, disk, own, free, Lay2(), g, Room(g, Diptrs()));
      ghost var ptrnum, len, base;
      ok, ptrnum, len, base := FixIndRegOrDir(diHeight, gfs2Hgt, blk);
      if len > 0 {
        NeededEnds(o, g, Diptrs(), base);
        NeededEnds(o, g, Diptrs(), base + len - 1);
        OnlyNeededGrew(o, old(own), own, g, Diptrs(), Ends(false, gfs2Hgt - 1, base, len));
        if !ok {
          MissingMore(own, Ends(false, gfs2Hgt - 1, base, len), Needed(o, gfs2Hgt));
        }
      }
      if ok {
        MovingBottom(o, blocks, pos, k, old(disk), old(own), old(free), old(iBlocks), disk, own, free, iBlocks,
                     Lay2(), g, ptrnum, len, base);
      }
    }

    // "Now run through the block list a second time."
    method AdjustBlocks(blocks: seq<Blocklist>, diHeight: nat, gfs2Hgt: nat, ghost o: OldInode,
                        ghost pos: map<nat, nat>)
      returns (ok: bool)
      requires gfs2Hgt > 0 && Remapping(o, blocks, pos, 0, gfs2Hgt) && diHeight == o.depth + 1
      modifies this`disk, this`free, this`iBlocks, this`own, this`iHeight
      ensures Fresh(o, gfs2Hgt) && iBlocks + |free| == old(iBlocks + |free|) && |own| + |free| == old(|own| + |free|)
      ensures ok ==> Remapping(o, blocks, pos, |blocks|, gfs2Hgt)
      ensures !ok ==> words >= 64 && o.words >= 64 && free == {} && Missing(own, Needed(o, gfs2Hgt))
    {
      hide Moving, BuildingOf, Headed, Missing, NeededPaths, Room, Pow, Fitting, OnlyNeeded;
      ok := true;
      var k := 0;
      while k < |blocks|
        invariant k <= |blocks| && ok
        invariant Remapping(o, blocks, pos, k, gfs2Hgt) && iBlocks + |free| == old(iBlocks + |free|)
        invariant |own| + |free| == old(|own| + |free|)
      {
        ok := AdjustBlock(blocks[k], diHeight, gfs2Hgt, o, blocks, pos, k);
        if !ok {
          return;
        }
        k := k + 1;
      }
    }

    // The size tables of main: how much the tree of each height maps, for ordinary files and for directories,
    // whose data blocks have a header too.
    ghost predicate Tables() {
      && 64 <= words < 0x1000_0000
      && SizeTable(heightsize, 8 * words, 8 * words, Diptrs(), Inptrs2())
      && SizeTable(jheightsize, 8 * words, 8 * (words - META_HEADER_WORDS), Diptrs(), Inptrs2())
    }

    constructor (words: nat, dinode: nat, disk: Disk, free: set<nat>, height: nat, size: nat, blocks: int)
      requires 64 <= words < 0x1000_0000
      ensures Tables() && this.words == words && this.dinode == dinode && this.disk == disk && this.free == free
      ensures iHeight == height && iSize == size && iBlocks == blocks
    {
      MulMonotone(488, 8 * (words - META_HEADER_WORDS), words - DINODE_WORDS);
      MulMonotone(512, 8 * words, words - DINODE_WORDS);
      var arr, _ := ComputeHeightsize(8 * words, 8 * words, words - DINODE_WORDS, words - META_HEADER_WORDS);
      var jarr, _ := ComputeHeightsize(8 * words, 8 * (words - META_HEADER_WORDS), words - DINODE_WORDS,
                                       words - META_HEADER_WORDS);
      this.words, this.dinode, this.heightsize, this.jheightsize := words, dinode, arr, jarr;
      this.disk, this.free, this.iHeight, this.iSize, this.iBlocks, this.own := disk, free, height, size, blocks, map[];
    }

    // The bytes one block of the file holds.
    function Unit(isDir: bool): nat
      requires words >= 64
    {
      if isDir then 8 * (words - META_HEADER_WORDS) else 8 * words
    }

    // The inode as adjust_indirect_blocks finds it: a GFS1 tree.
    ghost predicate Gfs1Tree(o: OldInode)
      reads this
    {
      && Tables() && iHeight > 0 && iSize < TWO_64
      && o == OldInode(disk, free, Layout(dinode, GFS1_INDIRECT_WORDS), words, o.own, iHeight - 1)
      && OldTree(o.disk, o.free, o.lay, o.words, o.own, o.depth)
    }

    // The height calc_gfs2_tree_height chooses.
    ghost predicate Chosen(unit: nat, size: nat, height: nat) {
      words >= 64 && LeastHeight(size, unit, Diptrs(), Inptrs2(), height)
    }

    // The height is chosen by the size of the file alone. The tree of that height has room for all the inode maps.
    ghost predicate Gfs1Inode(isDir: bool, o: OldInode)
      reads this
    {
      && Gfs1Tree(o) && iHeight > 1
      && forall height: nat | Chosen(Unit(isDir), iSize, height) ::
         Fitting(o, Room(NewShape(false, height - 1), Diptrs()))
    }

    // An inode that maps nothing past its end is one of those.
    lemma NothingPastTheEnd(isDir: bool, o: OldInode)
      requires Gfs1Tree(o) && iHeight > 1 && forall n: nat | OldAt(o, n) != 0 :: n * Unit(isDir) < iSize
      ensures Gfs1Inode(isDir, o)
    {
      forall height: nat | Chosen(Unit(isDir), iSize, height)
        ensures Fitting(o, Room(NewShape(false, height - 1), Diptrs()))
      {
        RoomOfPointers(NewShape(false, height - 1), Diptrs());
        forall n: nat | OldAt(o, n) != 0 ensures n < Room(NewShape(false, height - 1), Diptrs()) {
          BelowCapacity(n, Unit(isDir), Diptrs(), Inptrs2(), height, iSize);
        }
      }
    }

    lemma AddressedHeight(isDir: bool, height: nat)
      requires Tables() && iSize < TWO_64 && Chosen(Unit(isDir), iSize, height)
      ensures Addressed(height)
    {
      RoomOfPointers(NewShape(false, height - 1), Diptrs());
      RoomFits(iSize, Unit(isDir), Diptrs(), Inptrs2(), height);
    }

    // Everything before the second run: tear down, choose the new height, and start from an empty inode.
    method StartRegOrDir(isDir: bool, ghost o: OldInode)
      returns (blocks: seq<Blocklist>, gfs2Hgt: nat, ghost pos: map<nat, nat>)
      requires Gfs1Inode(isDir, o)
      modifies this`disk, this`free, this`iBlocks, this`own, this`iHeight, this`iSize
      ensures Remapping(o, blocks, pos, 0, gfs2Hgt) && iHeight == 0 && |own| + |free| == |o.free| + |o.own|
      ensures Listed(o, blocks, pos) && iBlocks + |free| == old(iBlocks + |free|)
      ensures Chosen(Unit(isDir), old(iSize), gfs2Hgt)
    {
      hide OldTree, Tearing, SizeTable, Capacity, Listed, Moving, BuildingOf, OldAt, Fitting, Room, Pow;
      gfs2Hgt := CalcGfs2TreeHeight(if isDir then jheightsize else heightsize, if isDir then |jheightsize|
                                    else |heightsize|, iSize,
                                    8 * words, Unit(isDir), Diptrs(), Inptrs2());
      AddressedHeight(isDir, gfs2Hgt);
      assert Chosen(Unit(isDir), iSize, gfs2Hgt);
      blocks, pos := GetInodeMetablocks(o);
      TearListed(o, disk, free, blocks, pos);
      TornFree(o, disk, free, blocks, pos);
      MovingStart(o, blocks, pos, disk, free, Lay2(), NewShape(false, gfs2Hgt - 1), words);
      iSize := 0;
      iHeight := 0;
      own := OnlyDinode(dinode);
    }

    // adjust_indirect_blocks for a regular file or directory of height two or more.
    method AdjustRegOrDir(isDir: bool, ghost o: OldInode) returns (ok: bool, ghost height: nat)
      requires Gfs1Inode(isDir, o)
      modifies this`disk, this`free, this`iBlocks, this`own, this`iHeight, this`iSize
      // the new height is the least one whose tree can map the file
      ensures Chosen(Unit(isDir), old(iSize), height)
      // the converted inode is a tree again, and maps every logical block to the block it was mapped to before
      ensures ok ==> iHeight == height && iSize == old(iSize) && Building(height - 1, words)
      ensures ok ==> forall n: nat :: At(disk, Lay2(), NewShape(false, height - 1), n) == OldAt(o, n)
      // blocks are taken from and given to the free blocks only, and nothing else is written
      ensures ok ==> iBlocks + |free| == old(iBlocks + |free|) && OutsideSame(o, disk)
      // it succeeds exactly if the free blocks and those of the old tree are as many as the new tree needs
      ensures ok <==> |o.free| + |o.own| - 1 >= |Needed(o, height)|
    {
      hide OldTree, Tearing, Capacity, Listed, Moving, BuildingOf, OldAt, Fitting, At, Headed, Missing, NeededPaths,
           Room, Pow, OnlyNeeded, Tree;
      var dinodeSize, diHeight := iSize, iHeight;
      var blocks, gfs2Hgt;
      ghost var pos;
      blocks, gfs2Hgt, pos := StartRegOrDir(isDir, o);
      height := gfs2Hgt;
      ghost var g := NewShape(false, gfs2Hgt - 1);
      ok := AdjustBlocks(blocks, diHeight, gfs2Hgt, o, pos);
      NeededIs(o, own, g, Diptrs());
      EnoughBlocks(disk, free, Lay2(), own, words, gfs2Hgt - 1, words, Needed(o, gfs2Hgt));
      if !ok {
        return;
      }
      MovingEnd(o, blocks, pos, disk, own, free, Lay2(), g);
      BuiltTree(disk, free, own, Lay2(), words, gfs2Hgt - 1, words);
      NeededThere(o, disk, Lay2(), own, g, Diptrs());
      iSize := dinodeSize;
      iHeight := gfs2Hgt;
    }

    // The numbers of jdata_mp_gfs1_to_gfs2 do not wrap around for a tree of this height, and there is room for all
    // the bytes that are copied.
    ghost predicate Convertible(o: OldInode, size: nat, height: nat)
      requires o.words >= 64
    {
      && 64 <= words < 0x1000_0000 && 0 < height < MAX_META_HEIGHT && Pow(Inptrs2(), height - 1) * (8 * words) < TWO_64
      && DataFits(o, size, Room(NewShape(true, height), Diptrs()))
    }

    // The state of the second run over the list of a journaled-data file: the blocks in the visited slots are moved.
    ghost predicate Rebyting(o: OldInode, downs: map<nat, nat>, size: nat, blocks: seq<Blocklist>, pos: map<nat, nat>,
                             k: nat, i: nat, gfs2Hgt: nat)
      reads this
    {
      && words >= 64 && o.words == words && o.lay == Lay1() && o.depth < MAX_META_HEIGHT
      && Building(gfs2Hgt, 8 * words) && Started() && Convertible(o, size, gfs2Hgt)
      && MovingBytes(o, downs, size, blocks, pos, k, i, disk, own, free, Lay2(), NewShape(true, gfs2Hgt))
    }

    // Read the payload of a block of journaled data, wipe it, and free the block.
    method FreeData(block: nat) returns (ptrbuf: seq<nat>)
      requires words >= 64 && block in disk && |disk[block]| == 8 * words
      modifies this`disk, this`free, this`iBlocks
      ensures ptrbuf == old(disk)[block][HEADER_BYTES..]
      ensures disk == old(disk)[block := old(disk)[block][..HEADER_BYTES] + Zeros(8 * words - HEADER_BYTES)]
      ensures free == old(free) + {block} && iBlocks == old(iBlocks) - 1
    {
      ptrbuf := disk[block][HEADER_BYTES..];
      disk := disk[block := disk[block][..HEADER_BYTES] + Zeros(8 * words - HEADER_BYTES)];
      iBlocks := iBlocks - 1;
      free := free + {block};
    }

    // The blocks a data block needs are those on the way to its ends.
    lemma EndsNeeded(o: OldInode, size: nat, gfs2Hgt: nat, n: nat)
      requires words >= 64 && o.words == words
      ensures
        var len, needed := CopiedLen(o, size, n), NeededFor(o, size, NewShape(true, gfs2Hgt), n);
        if len == 0 then needed == {} && !Missing(own, needed)
        else needed == Ends(true, gfs2Hgt, FirstByte(o, n), len)
    {
      hide CopiedLen, FirstByte, NeededFor, PathOf, Prefixes;
      NeededForEnds(o, size, NewShape(true, gfs2Hgt), n);
    }

    // Write the payload of data block n0 of the old file where it belongs.
    method PlaceData(diHeight: nat, gfs2Hgt: nat, dinodeSize: nat, height: nat, mp: seq<nat>, ptrbuf: seq<nat>,
                     ghost o: OldInode, ghost n0: nat) returns (ok: bool, ghost len: nat)
      requires Building(gfs2Hgt, 8 * words) && Started() && o.words == words && 64 <= words < 0x1000_0000
      requires 0 < gfs2Hgt < MAX_META_HEIGHT && Pow(Inptrs2(), gfs2Hgt - 1) * (8 * words) < TWO_64
      requires FirstByte(o, n0) < TWO_64
      requires var len := CopiedLen(o, dinodeSize, n0); len > 0 ==>
        FirstByte(o, n0) + len <= Room(NewShape(true, gfs2Hgt), Diptrs())
      requires 0 < diHeight <= MAX_META_HEIGHT && height == gfs2Hgt && |mp| == MAX_META_HEIGHT
      requires n0 == Value(mp[..diHeight], Inptrs1()) && |ptrbuf| == 8 * words - HEADER_BYTES
      modifies this`disk, this`free, this`iBlocks, this`own, this`iHeight
      ensures len == CopiedLen(o, dinodeSize, n0) && len <= |ptrbuf| && Building(gfs2Hgt, 8 * words) && Started()
      ensures iBlocks + |free| == old(iBlocks + |free|)
      ensures ok ==> Progress(old(disk), old(own), old(free), old(iBlocks), disk, own, free, iBlocks,
                              Lay2(), NewShape(true, gfs2Hgt), FirstByte(o, n0), ptrbuf[..len])
      ensures |own| + |free| == old(|own| + |free|)
      ensures GrewWithin(old(own), own, NeededFor(o, dinodeSize, NewShape(true, gfs2Hgt), n0))
      ensures ok <==> !Missing(own, NeededFor(o, dinodeSize, NewShape(true, gfs2Hgt), n0))
      ensures !ok ==> free == {}
    {
      hide BuildingOf, Value, Digits, OnPath, Room, OldAt, Progress, Tree, Pow, Headed, GrewWithin, DataFits, CopiedLen,
           FirstByte, NeededFor, Missing, Ends, Payload, PathOf, SlotOf, Blank;
      EndsNeeded(o, dinodeSize, gfs2Hgt, n0);
      GrewNothing(own, {});
      NoProgress(disk, own, free, iBlocks, Lay2(), NewShape(true, gfs2Hgt), FirstByte(o, n0));
      var gfs2mp, cut;
      ghost var offset;
      gfs2mp, cut, offset := JdataMpGfs1ToGfs2(diHeight, gfs2Hgt, mp, 8 * words - HEADER_BYTES, dinodeSize);
      CopiedLenIs(o, dinodeSize, n0, offset, cut);
      len := cut;
      ok := true;
      assert ptrbuf[..0] == [];
      if cut > 0 {
        ok := FixTree(gfs2mp, height, true, ptrbuf[..cut], offset);
      }
    }

    // One block of journaled data: it is freed first, and then its payload is written. That fails only if there were
    // too few blocks for it when its turn came.
    method MoveData(diHeight: nat, gfs2Hgt: nat, dinodeSize: nat, blk: Blocklist, ptrnum: nat, ghost o: OldInode,
                    ghost downs: map<nat, nat>, ghost blocks: seq<Blocklist>, ghost pos: map<nat, nat>, ghost k: nat,
                    ghost spare: nat, ghost limit0: nat)
      returns (ok: bool, ghost limit: nat)
      requires Rebyting(o, downs, dinodeSize, blocks, pos, k, ptrnum, gfs2Hgt) && k < |blocks| && blk == blocks[k]
      requires Spending(o, downs, dinodeSize, pos, k, ptrnum, gfs2Hgt, spare, limit0)
      requires diHeight == o.depth + 1 && blk.height == o.depth && ptrnum < Fan(o) == |blk.ptrbuf|
      requires blk.ptrbuf[ptrnum] != 0
      modifies this`disk, this`free, this`iBlocks, this`own, this`iHeight
      ensures words >= 64 && o.words == words
      ensures ok ==> Rebyting(o, downs, dinodeSize, blocks, pos, k, ptrnum + 1, gfs2Hgt)
      ensures ok ==> Spending(o, downs, dinodeSize, pos, k, ptrnum + 1, gfs2Hgt, spare, limit)
      ensures ok ==> iBlocks + |free| == old(iBlocks + |free|)
      ensures !ok ==> !EnoughBlocksFor(o, downs, dinodeSize, gfs2Hgt, spare)
    {
      hide MovingBytes, BuildingOf, At, Value, Digits, Room, OldAt, Progress, Tree, Pow, Headed, DataFits, CopiedLen,
           Zeros, Missing, GrewWithin, NeededFor, Balance, MovedUpTo, Suffices;
      LevelFacts(disk, free, own, Lay2(), words, gfs2Hgt, 8 * words);
      ghost var g := NewShape(true, gfs2Hgt);
      ghost var n0 := DataThere(o, downs, dinodeSize, blocks, pos, k, ptrnum, disk, own, free, Lay2(), g);
      var block := blk.ptrbuf[ptrnum];
      var mp := ExtendPath(blk.mp, blk.height, ptrnum);
      ghost var w := disk[block][..HEADER_BYTES] + Zeros(8 * words - HEADER_BYTES);
      FreedData(disk, free, own, Lay2(), words, g, 8 * words, block, w);
      HeadedLevel(disk, own, disk[block := w], own, gfs2Hgt, true, block);
      var ptrbuf := FreeData(block);
      ghost var taken1, len := iBlocks, 0;
      BlockFits(o, dinodeSize, Room(g, Diptrs()), n0);
      ok, len := PlaceData(diHeight, gfs2Hgt, dinodeSize, blk.height + 1 + gfs2Hgt - diHeight, mp, ptrbuf, o, n0);
      Spent(o, downs, dinodeSize, blocks, pos, k, ptrnum, g, old(disk), old(own), old(free), spare, limit0, n0,
            disk, own, free, Lay2(), words, 8 * words, ok);
      limit := n0 + 1;
      if ok {
        DataMoved(o, downs, dinodeSize, blocks, pos, k, ptrnum, n0, len, w, old(disk), old(own), old(free), taken1,
                  disk, own, free, iBlocks, Lay2(), g);
      }
    }

    // The data blocks moved so far are those before `limit`, and the blocks are accounted for.
    ghost predicate Spending(o: OldInode, downs: map<nat, nat>, size: nat, pos: map<nat, nat>, k: nat, i: nat,
                             gfs2Hgt: nat, spare: nat, limit: nat)
      reads this
      requires words >= 64 && o.words >= 64
    {
      && MovedUpTo(o, pos, k, i, limit)
      && Balance(o, downs, size, NewShape(true, gfs2Hgt), own, free, spare, limit)
    }

    // Whenever a data block is moved there are as many blocks as are needed so far.
    ghost predicate EnoughBlocksFor(o: OldInode, downs: map<nat, nat>, size: nat, gfs2Hgt: nat, spare: nat)
      requires words >= 64 && o.words >= 64
    {
      forall n: nat | OldAt(o, n) != 0 :: Suffices(o, downs, size, NewShape(true, gfs2Hgt), spare, n)
    }

    // fix_ind_jdata: all data blocks one block of the old tree points to.
    method FixIndJdata(diHeight: nat, gfs2Hgt: nat, dinodeSize: nat, blk: Blocklist, ghost o: OldInode,
                       ghost downs: map<nat, nat>,
                       ghost blocks: seq<Blocklist>, ghost pos: map<nat, nat>, ghost k: nat,
                       ghost spare: nat, ghost limit0: nat)
      returns (ok: bool, ghost limit: nat)
      requires Rebyting(o, downs, dinodeSize, blocks, pos, k, 0, gfs2Hgt) && k < |blocks| && blk == blocks[k]
      requires diHeight == o.depth + 1 && blk.height == o.depth && words - GFS1_INDIRECT_WORDS == Fan(o) == |blk.ptrbuf|
      requires Spending(o, downs, dinodeSize, pos, k, 0, gfs2Hgt, spare, limit0)
      modifies this`disk, this`free, this`iBlocks, this`own, this`iHeight
      ensures words >= 64 && o.words == words
      ensures ok ==>
        Rebyting(o, downs, dinodeSize, blocks, pos, k + 1, 0, gfs2Hgt) && iBlocks + |free| == old(iBlocks + |free|)
      ensures ok ==> Spending(o, downs, dinodeSize, pos, k + 1, 0, gfs2Hgt, spare, limit)
      ensures !ok ==> !EnoughBlocksFor(o, downs, dinodeSize, gfs2Hgt, spare)
    {
      hide MovingBytes, BuildingOf, At, Value, Digits, OnPath, Room, OldAt, Progress, Tree, Fan, Balance, MovedUpTo,
           EnoughBlocksFor, Convertible;
      limit, ok := limit0, true;
      var ptrnum := 0;
      while ptrnum < words - GFS1_INDIRECT_WORDS
        invariant ptrnum <= words - GFS1_INDIRECT_WORDS && ok
        invariant Rebyting(o, downs, dinodeSize, blocks, pos, k, ptrnum, gfs2Hgt)
        invariant iBlocks + |free| == old(iBlocks + |free|)
        invariant Spending(o, downs, dinodeSize, pos, k, ptrnum, gfs2Hgt, spare, limit)
      {
        if blk.ptrbuf[ptrnum] == 0 {
          NoPointer(o, downs, dinodeSize, blocks, pos, k, ptrnum, disk, own, free, Lay2(), NewShape(true, gfs2Hgt));
          SpentNone(o, downs, dinodeSize, blocks, pos, k, ptrnum, disk, own, free, Lay2(), NewShape(true, gfs2Hgt),
                    limit);
          ptrnum := ptrnum + 1;
          continue;
        }
        ok, limit := MoveData(diHeight, gfs2Hgt, dinodeSize, blk, ptrnum, o, downs, blocks, pos, k, spare, limit);
        if !ok {
          return;
        }
        ptrnum := ptrnum + 1;
      }
      NextItem(o, downs, dinodeSize, blocks, pos, k, ptrnum, disk, own, free, Lay2(), NewShape(true, gfs2Hgt));
      SpentNone(o, downs, dinodeSize, blocks, pos, k, ptrnum, disk, own, free, Lay2(), NewShape(true, gfs2Hgt), limit);
    }

    // The second run for journaled data.
    method AdjustDataBlocks(blocks: seq<Blocklist>, diHeight: nat, gfs2Hgt: nat, dinodeSize: nat, ghost o: OldInode,
                            ghost downs: map<nat, nat>,
                            ghost pos: map<nat, nat>, ghost spare: nat) returns (ok: bool)
      requires Rebyting(o, downs, dinodeSize, blocks, pos, 0, 0, gfs2Hgt) && diHeight == o.depth + 1
      requires Spending(o, downs, dinodeSize, pos, 0, 0, gfs2Hgt, spare, 0)
      modifies this`disk, this`free, this`iBlocks, this`own, this`iHeight
      ensures ok ==>
        Rebyting(o, downs, dinodeSize, blocks, pos, |blocks|, 0, gfs2Hgt) && iBlocks + |free| == old(iBlocks + |free|)
      ensures words >= 64 && o.words == words
      ensures ok <==> EnoughBlocksFor(o, downs, dinodeSize, gfs2Hgt, spare)
    {
      hide MovingBytes, BuildingOf, At, Value, Digits, OnPath, Room, OldAt, Progress, Tree, Balance, MovedUpTo,
           Convertible, Suffices;
      ok := true;
      ghost var limit := 0;
      var k := 0;
      while k < |blocks|
        invariant k <= |blocks| && ok
        invariant Rebyting(o, downs, dinodeSize, blocks, pos, k, 0, gfs2Hgt)
        invariant iBlocks + |free| == old(iBlocks + |free|)
        invariant Spending(o, downs, dinodeSize, pos, k, 0, gfs2Hgt, spare, limit)
      {
        if blocks[k].height != diHeight - 1 {
          NextItem(o, downs, dinodeSize, blocks, pos, k, 0, disk, own, free, Lay2(), NewShape(true, gfs2Hgt));
          SpentNone(o, downs, dinodeSize, blocks, pos, k, 0, disk, own, free, Lay2(), NewShape(true, gfs2Hgt), limit);
          k := k + 1;
          continue;
        }
        ItemPointers(o, downs, dinodeSize, blocks, pos, k, disk, own, free, Lay2(), NewShape(true, gfs2Hgt));
        ok, limit := FixIndJdata(diHeight, gfs2Hgt, dinodeSize, blocks[k], o, downs, blocks, pos, k, spare, limit);
        if !ok {
          return;
        }
        k := k + 1;
      }
      SpentAll(o, downs, dinodeSize, blocks, pos, disk, own, free, Lay2(), NewShape(true, gfs2Hgt), spare, limit);
    }

    // The inode as adjust_indirect_blocks finds it: a GFS1 file of journaled data that the tree of the height chosen
    // has room for.
    ghost predicate Gfs1Data(o: OldInode, downs: map<nat, nat>)
      reads this
    {
      && Gfs1Tree(o) && DataOf(o, downs)
      && forall height: nat | Chosen(8 * words, iSize, height) :: Convertible(o, iSize, height)
    }

    // A file without data blocks behind its end is one of those, if it is no longer than 2^63 bytes and nine levels
    // are enough for it.
    lemma NoDataPastTheEnd(o: OldInode, downs: map<nat, nat>)
      requires Gfs1Tree(o) && DataOf(o, downs) && forall n: nat | OldAt(o, n) != 0 :: FirstByte(o, n) < iSize
      requires iSize <= TWO_64 / 2 && iSize <= Capacity(8 * words, Diptrs(), Inptrs2(), MAX_META_HEIGHT - 1)
      ensures Gfs1Data(o, downs)
    {
      hide DataOf, OldAt, OldTree, Capacity, SizeTable, DataFits, Pow, Room;
      forall height: nat | Chosen(8 * words, iSize, height) ensures Convertible(o, iSize, height) {
        TenLevels(iSize, 8 * words, Diptrs(), Inptrs2(), height);
        ByteFactorFits(iSize, 8 * words, Diptrs(), Inptrs2(), height);
        RoomOfData(NewShape(true, height), Diptrs());
        DataBelowFits(o, iSize, Room(NewShape(true, height), Diptrs()));
      }
    }

    method StartJdata(ghost o: OldInode, ghost downs: map<nat, nat>)
      returns (blocks: seq<Blocklist>, gfs2Hgt: nat, ghost pos: map<nat, nat>)
      requires Gfs1Data(o, downs)
      modifies this`disk, this`free, this`iBlocks, this`own, this`iHeight, this`iSize
      ensures Rebyting(o, downs, old(iSize), blocks, pos, 0, 0, gfs2Hgt)
      ensures |o.own| > 0 && Spending(o, downs, old(iSize), pos, 0, 0, gfs2Hgt, |o.free| + |o.own| - 1, 0)
      ensures iHeight == 0 && iBlocks + |free| == old(iBlocks + |free|)
      ensures Chosen(8 * words, old(iSize), gfs2Hgt)
    {
      hide OldTree, Tearing, SizeTable, Capacity, Listed, MovingBytes, BuildingOf, OldAt, DataOf, Room, Pow, DataFits,
           Balance, MovedUpTo;
      gfs2Hgt := CalcGfs2TreeHeight(heightsize, |heightsize|, iSize, 8 * words, 8 * words, Diptrs(), Inptrs2());
      assert Chosen(8 * words, iSize, gfs2Hgt);
      blocks, pos := GetInodeMetablocks(o);
      TornFree(o, disk, free, blocks, pos);
      MovingBytesStart(o, downs, iSize, blocks, pos, disk, free, Lay2(), NewShape(true, gfs2Hgt), 8 * words);
      BalanceStart(o, downs, iSize, NewShape(true, gfs2Hgt), dinode, free);
      MovedUpToStart(o, pos);
      iSize := 0;
      iHeight := 0;
      own := OnlyDinode(dinode);
    }

    // adjust_indirect_blocks for a file of journaled data that is not stuffed into its dinode.
    method AdjustJdata(ghost o: OldInode, ghost downs: map<nat, nat>) returns (ok: bool, ghost height: nat)
      requires Gfs1Data(o, downs)
      modifies this`disk, this`free, this`iBlocks, this`own, this`iHeight, this`iSize
      // the new height is the least one whose tree can map the file
      ensures Chosen(8 * words, old(iSize), height)
      // every byte of the file reads as before; behind its end are only blocks that began there
      ensures ok ==> iHeight == height && iSize == old(iSize) && Building(height, 8 * words)
      ensures ok ==>
        forall x: nat :: At(disk, Lay2(), NewShape(true, height), x) == if Kept(o, iSize, x) then OldByte(o, x) else 0
      ensures ok ==> forall x: nat | x < iSize :: At(disk, Lay2(), NewShape(true, height), x) == OldByte(o, x)
      // blocks are taken from and given to the free blocks only, and nothing else is written
      ensures ok ==> iBlocks + |free| == old(iBlocks + |free|) && Confined(o, downs, disk, own, free)
      // it succeeds exactly if for every data block there are, once it is freed, as many blocks as the bytes copied
      // up to its end need: those that were free, those of the old tree, and the data blocks up to it
      ensures ok <==> forall n: nat | OldAt(o, n) != 0 ::
        |o.free| + |o.own| - 1 + |Below(downs, n + 1)| >=
        |NeededBelow(o, old(iSize), NewShape(true, height), n + 1)|
    {
      hide OldTree, Tearing, Capacity, Listed, MovingBytes, BuildingOf, OldAt, At, DataOf, Room, OldByte, Confined,
           Kept, Headed, DataFits, Pow, Balance, MovedUpTo, Below, NeededBelow;
      var dinodeSize, diHeight := iSize, iHeight;
      var blocks, gfs2Hgt;
      ghost var pos;
      blocks, gfs2Hgt, pos := StartJdata(o, downs);
      height := gfs2Hgt;
      ok := AdjustDataBlocks(blocks, diHeight, gfs2Hgt, dinodeSize, o, downs, pos, |o.free| + |o.own| - 1);
      if !ok {
        return;
      }
      MovingBytesEnd(o, downs, dinodeSize, blocks, pos, disk, own, free, Lay2(), NewShape(true, gfs2Hgt));
      forall x: nat | x < dinodeSize ensures Kept(o, dinodeSize, x) {
        KeptBelow(o, dinodeSize, x);
      }
      iSize := dinodeSize;
      iHeight := gfs2Hgt;
    }

    // Which inodes adjust_indirect_blocks leaves alone: with no tree, or with one whose only level is the dinode.
    predicate NothingToDo(isDir: bool, jdataFlag: bool)
      reads this
    {
      var isJdata := jdataFlag && !isDir;
      (!isJdata && iHeight <= 1) || (isJdata && iHeight == 0)
    }

    // The inode as adjust_indirect_blocks finds it, whatever its kind.
    ghost predicate Gfs1Any(isDir: bool, jdataFlag: bool, o: OldInode, downs: map<nat, nat>)
      reads this
    {
      && words >= 64 && o.words == words
      && (iHeight > 0 ==> o == OldInode(disk, free, Layout(dinode, GFS1_INDIRECT_WORDS), words, o.own, iHeight - 1))
      && (!NothingToDo(isDir, jdataFlag) ==> if jdataFlag && !isDir then Gfs1Data(o, downs) else Gfs1Inode(isDir, o))
    }

    // A regular file or directory after the conversion: a GFS2 tree of the height the dinode says, which maps every
    // logical block to the block it was mapped to before. The data blocks themselves were not written.
    ghost predicate SameMap(o: OldInode)
      reads this
    {
      && words >= 64 && o.words == words && iHeight > 0 && OutsideSame(o, disk)
      && forall n: nat :: At(disk, Lay2(), NewShape(false, iHeight - 1), n) == OldAt(o, n)
    }

    // A file of journaled data after the conversion: every byte below its end reads as before.
    ghost predicate SameBytes(o: OldInode, downs: map<nat, nat>)
      reads this
    {
      && words >= 64 && o.words == words && iHeight > 0 && Confined(o, downs, disk, own, free)
      && forall x: nat | x < iSize :: At(disk, Lay2(), NewShape(true, iHeight), x) == OldByte(o, x)
    }

    method AdjustIndirectBlocks(isDir: bool, jdataFlag: bool, ghost o: OldInode, ghost downs: map<nat, nat>)
      returns (ok: bool, ghost height: nat)
      requires Gfs1Any(isDir, jdataFlag, o, downs)
      modifies this`disk, this`free, this`iBlocks, this`own, this`iHeight, this`iSize
      ensures old(NothingToDo(isDir, jdataFlag)) ==>
        ok && disk == old(disk) && free == old(free) && iHeight == old(iHeight)
      ensures ok ==>
        iSize == old(iSize) && (iHeight == 0 <==> old(iHeight) == 0) && iBlocks + |free| == old(iBlocks + |free|)
      // what the whole conversion of a file is for: its data stays where the file has it
      ensures ok && iHeight > 0 ==> if jdataFlag && !isDir then SameBytes(o, downs) else SameMap(o)
      // what was rebuilt is a GFS2 tree of the least height that can map the file
      ensures !old(NothingToDo(isDir, jdataFlag)) && jdataFlag && !isDir ==>
        && Chosen(8 * words, old(iSize), height) && (ok ==> iHeight == height && Building(height, 8 * words))
        && (ok <==> forall n: nat | OldAt(o, n) != 0 ::
             |o.free| + |o.own| - 1 + |Below(downs, n + 1)| >=
             |NeededBelow(o, old(iSize), NewShape(true, height), n + 1)|)
      ensures !old(NothingToDo(isDir, jdataFlag)) && !(jdataFlag && !isDir) ==>
        && Chosen(Unit(isDir), old(iSize), height) && (ok ==> iHeight == height && Building(height - 1, words))
        && (ok <==> |o.free| + |o.own| - 1 >= |Needed(o, height)|)
      // a file without holes needs no free block
      ensures o.words >= 64 && Contiguous(o, old(iSize), if jdataFlag then Payload(o) else Unit(isDir)) ==> ok
    {
      hide OldTree, At, OldAt, DataOf, OldByte, Confined, BuildingOf, Capacity, Tables, Headed, NeededPaths, Kept,
           OutsideSame, Below, NeededBelow, LeastHeight, Contiguous;
      var isJdata := jdataFlag && !isDir;
      ghost var size, unit := iSize, if jdataFlag then Payload(o) else Unit(isDir);
      if (!isJdata && iHeight <= 1) || (isJdata && iHeight == 0) {
        if iHeight > 0 {
          DinodeOnly(o, Lay2(), NewShape(false, 0));
        }
        return true, iHeight;
      }
      if isJdata {
        ok, height := AdjustJdata(o, downs);
        if Contiguous(o, size, unit) {
          ContiguousData(o, downs, size, height);
        }
      } else {
        ok, height := AdjustRegOrDir(isDir, o);
        if Contiguous(o, size, unit) {
          ContiguousFile(o, size, unit, height);
        }
      }
    }
  }
}
