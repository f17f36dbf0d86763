/**
 The counters of resource groups: pass5 of fsck.gfs2, which makes bitmaps and counters agree with the blockmap,
 and check_n_fix_bitmap of metawalk.c, which keeps them together when one entry changes.
 */
module Pass5 {
  import opened FsBits
  import opened Bitmaps
  import opened ResourceGroups

  // How many entries are in a state.
  ghost function Count(states: seq<bv8>, b: bv8): nat {
    if states == [] then 0 else Count(states[..|states| - 1], b) + if states[|states| - 1] == b then 1 else 0
  }

  // The first m entries that are in a state.
  ghost function EntriesIn(states: seq<bv8>, b: bv8, m: nat): set<nat>
    requires m <= |states|
  {
    set n | 0 <= n < m && states[n] == b
  }

  lemma {:induction false} CountIsSize(states: seq<bv8>, b: bv8)
    ensures Count(states, b) == |EntriesIn(states, b, |states|)|
  {
    if states == [] {
      assert EntriesIn(states, b, 0) == {};
    } else {
      var m := |states| - 1;
      CountIsSize(states[..m], b);
      assert EntriesIn(states[..m], b, m) == EntriesIn(states, b, m);
      assert EntriesIn(states, b, m + 1) == EntriesIn(states, b, m) + if states[m] == b then {m} else {};
    }
  }

  lemma {:induction false} CountUpdate(states: seq<bv8>, n: nat, to: bv8, b: bv8)
    requires n < |states|
    ensures Count(states[n := to], b) == Count(states, b) - (if states[n] == b then 1 else 0) + (if to == b then 1
      else 0)
  {
    var m := |states| - 1;
    if n < m {
      CountUpdate(states[..m], n, to, b);
      assert states[n := to][..m] == states[..m][n := to];
    } else {
      assert states[n := to][..m] == states[..m];
    }
  }

  lemma {:induction false} CountAll(states: seq<bv8>)
    requires forall n | 0 <= n < |states| :: states[n] <= 3
    ensures Count(states, 0) + Count(states, 1) + Count(states, 2) + Count(states, 3) == |states|
  {
    if states != [] {
      CountAll(states[..|states| - 1]);
    }
  }

  // What the bitmap is to say about a block of the given type: unlinked inodes are reclaimed.
  function Cleaned(q: nat): (c: nat) {
    if q == UNLINKED then FREE else q
  }

  ghost predicate Types(types: seq<nat>) {
    forall n | 0 <= n < |types| :: types[n] <= DINODE
  }

  // The entries of the first m blocks as the blockmap has them, then those of the old bitmap.
  ghost function Fixed(states: seq<bv8>, types: seq<nat>, m: nat): (s: seq<bv8>)
    requires |types| == |states| && m <= |states| && Types(types)
    ensures |s| == |states|
  {
    seq(|states|, n requires 0 <= n < |states| => if n < m then Bits2(Cleaned(types[n])) else states[n])
  }

  lemma FixedNext(states: seq<bv8>, types: seq<nat>, m: nat)
    requires |types| == |states| && m < |states| && Types(types)
    ensures Fixed(states, types, m)[m] == states[m]
    ensures Fixed(states, types, m + 1) == Fixed(states, types, m)[m := Bits2(Cleaned(types[m]))]
    ensures Fixed(states, types, m + 1)[..m] == Fixed(states, types, m)[..m]
    ensures forall b: bv8 ::
      Count(Fixed(states, types, m + 1)[..m + 1], b) == Count(Fixed(states, types, m)[..m],
                                                              b) + if Bits2(Cleaned(types[m])) == b then 1 else 0
  {
    var s := Fixed(states, types, m + 1);
    assert s[..m + 1][..m] == s[..m];
  }

  // The counters for the first m blocks.
  ghost predicate Counted(count: seq<nat>, states: seq<bv8>) {
    |count| == 5 && forall k: nat | k <= DINODE :: count[k] == Count(states, Bits2(k))
  }

  // One block in check_block_status: count it, and make its entry agree with the blockmap.
  method CheckBlock(rg: ResourceGroup, types: seq<nat>, rgStatus: nat, rgBlock: nat, count0: seq<nat>,
                    ghost states: seq<bv8>)
    returns (count: seq<nat>)
    requires rg.Valid() && |types| == |states| == rg.data && Types(types) && rgBlock < rg.data && rgStatus <= 3
    requires rg.States() == Fixed(states, types, rgBlock) && Bits2(rgStatus) == states[rgBlock]
    requires Counted(count0, Fixed(states, types, rgBlock)[..rgBlock])
    modifies rg`buf
    ensures rg.Valid() && rg.States() == Fixed(states, types, rgBlock + 1)
    ensures Counted(count, Fixed(states, types, rgBlock + 1)[..rgBlock + 1])
  {
    hide Fixed, Count, ResourceGroup.States, Laid, Loaded, StateOf;
    FixedNext(states, types, rgBlock);
    var block := rg.data0 + rgBlock;
    var q := types[rgBlock];
    count := count0[q := count0[q] + 1];
    if q == UNLINKED {
      var rc := rg.SetBitmap(block, FREE);
      if rc == 0 {
        count := count[UNLINKED := count[UNLINKED] - 1];
        count := count[FREE := count[FREE] + 1];
      }
    } else if rgStatus != q {
      var rc := rg.SetBitmap(block, q);
    }
  }

  // check_block_status: the blocks whose entries are in one block of the bitmap.
  method CheckBlockStatus(rg: ResourceGroup, types: seq<nat>, x: nat, rgBlock0: nat, count0: seq<nat>,
                          ghost states: seq<bv8>)
    returns (rgBlock: nat, count: seq<nat>)
    requires rg.Valid() && |types| == |states| == rg.data && Types(types)
    requires x < |rg.bits| && rgBlock0 == NBBY * rg.bits[x].start && rgBlock0 <= rg.data
    requires rg.States() == Fixed(states, types, rgBlock0)
    requires Counted(count0, Fixed(states, types, rgBlock0)[..rgBlock0])
    modifies rg`buf
    ensures rg.Valid() && rgBlock == NBBY * (rg.bits[x].start + rg.bits[x].len) <= rg.data
    ensures rg.States() == Fixed(states, types, rgBlock) && Counted(count, Fixed(states, types, rgBlock)[..rgBlock])
  {
    hide Fixed, Count, Laid, Loaded, StateOf, Entry, ResourceGroup.States;
    rgBlock, count := rgBlock0, count0;
    SliceFits(rg.bits, rg.bsize, rg.data, x);
    var byte, bit := 0, 0;
    while byte < rg.bits[x].len
      invariant byte <= rg.bits[x].len && bit < NBBY && (byte == rg.bits[x].len ==> bit == 0)
      invariant rg.Valid() && rgBlock == NBBY * (rg.bits[x].start + byte) + bit <= rg.data
      invariant rg.States() == Fixed(states, types, rgBlock) && Counted(count, Fixed(states, types, rgBlock)[..rgBlock])
      decreases rg.bits[x].len - byte, NBBY - bit
    {
      ghost var e := NBBY * byte + bit;
      SliceEntry(rg.buf, rg.bits, rg.bsize, rg.data, x, e);
      BytePlace(byte, bit);
      var rgStatus := Number(Entry(rg.buf[x][rg.bits[x].offset..][byte], bit));
      FixedNext(states, types, rgBlock);
      count := CheckBlock(rg, types, rgStatus, rgBlock, count, states);
      rgBlock := rgBlock + 1;
      bit := bit + 1;
      if bit >= NBBY {
        bit := 0;
        byte := byte + 1;
      }
    }
  }

  lemma BytePlace(byte: nat, bit: nat)
    requires bit < NBBY
    ensures (NBBY * byte + bit) / NBBY == byte && (NBBY * byte + bit) % NBBY == bit
  {
  }

  // update_rgrp for GFS2, with every repair accepted: afterwards every entry agrees with the blockmap, the
  // counters are the numbers of free entries and inodes, and the final check of update_rgrp cannot fail.
  method UpdateRgrp(rg: ResourceGroup, types: seq<nat>) returns (count: seq<nat>)
    requires rg.Valid() && |types| == rg.data && Types(types)
    modifies rg`buf, rg`rtFree, rg`rtDinodes
    ensures rg.Valid() && forall n: nat | n < rg.data ::
      rg.States()[n] as nat == if types[n] == 2 then 0 else types[n]
    ensures rg.rtFree == Count(rg.States(), 0) && rg.rtDinodes == Count(rg.States(), 3)
    ensures Counted(count, rg.States()) && count[FREE] + count[USED] + count[UNLINKED] + count[DINODE] == rg.data
  {
    hide Count, Laid, Loaded, StateOf, Fixed, ResourceGroup.States;
    ghost var states := rg.States();
    count := [0, 0, 0, 0, 0];
    FixedNone(states, types);
    NotEmpty(rg.bits, rg.bsize, rg.data);
    SliceFits(rg.bits, rg.bsize, rg.data, 0);
    var rgBlock, i := 0, 0;
    while i < |rg.bits|
      invariant i <= |rg.bits| && rg.Valid() && rgBlock <= rg.data && rgBlock ==
        if i < |rg.bits| then NBBY * rg.bits[i].start else rg.data
      invariant rg.States() == Fixed(states, types, rgBlock) && Counted(count, Fixed(states, types, rgBlock)[..rgBlock])
    {
      SliceFits(rg.bits, rg.bsize, rg.data, i);
      rgBlock, count := CheckBlockStatus(rg, types, i, rgBlock, count, states);
      i := i + 1;
    }
    FixedAll(states, types);
    CountAll(rg.States());
    if rg.rtFree != count[FREE] {
      rg.rtFree := count[FREE];
    }
    if rg.rtDinodes != count[DINODE] {
      rg.rtDinodes := count[DINODE];
    }
  }

  lemma FixedNone(states: seq<bv8>, types: seq<nat>)
    requires |types| == |states| && Types(types)
    ensures Fixed(states, types, 0) == states && Counted([0, 0, 0, 0, 0], states[..0])
  {
  }

  lemma FixedAll(states: seq<bv8>, types: seq<nat>)
    requires |types| == |states| && Types(types)
    ensures
      var s := Fixed(states, types, |states|);
      s[..|states|] == s && forall n | 0 <= n < |states| :: s[n] == Bits2(Cleaned(types[n])) <= 3
  {
  }

  // check_n_fix_bitmap for GFS2, with the repair accepted.
  method CheckNFixBitmap(rg: ResourceGroup, blk: nat, errorOnDinode: bool, newState: nat) returns (rc: int)
    requires rg.Valid() && blk < TWO_64 && (rg.PassesRangeTest(blk) ==> blk < rg.data0 + rg.data) && newState <= DINODE
    requires rg.rtFree < TWO_32
    modifies rg`buf, rg`rtFree, rg`rtDinodes
    ensures rg.Valid() && rg.rtFree < TWO_32
    // a block without an entry, or an inode that may still be one, is left alone
    ensures rc == if !(rg.data0 <= blk < rg.data0 + rg.data) then -1
                  else if errorOnDinode && old(rg.States())[blk - rg.data0] == 3 && newState != DINODE &&
                      newState != FREE then 1 else 0
    ensures rg.States() == if rc == 0 then old(rg.States())[blk - rg.data0 := Bits2(newState)] else old(rg.States())
    // the free counter moves with the number of free entries, modulo its width
    ensures (rg.rtFree - Count(rg.States(), 0)) % TWO_32 == old(rg.rtFree - Count(rg.States(), 0)) % TWO_32
    // the inode counter does, too, but for two cases
    ensures rg.rtDinodes - Count(rg.States(), 3) == old(rg.rtDinodes - Count(rg.States(), 3)) + Drift(old(rg.States()),
      old(rg.rtDinodes), rc, blk - rg.data0, newState)
  {
    hide Count, Laid, StateOf, Loaded, ResourceGroup.States, ResourceGroup.PassesRangeTest;
    ghost var states, counter := rg.States(), rg.rtFree;
    if rg.data0 <= blk < rg.data0 + rg.data {
      CountUpdate(states, blk - rg.data0, Bits2(newState), 0);
      CountUpdate(states, blk - rg.data0, Bits2(newState), 3);
    }
    var oldState := rg.GetBitmap(blk);
    if oldState < 0 {
      return -1;
    }
    if oldState == newState {
      assert states == states[blk - rg.data0 := Bits2(newState)];
      return 0;
    }
    if errorOnDinode && oldState == DINODE && newState != FREE {
      return 1;
    }
    rc := rg.SetBitmap(blk, newState);
    AdjustCounters(rg, oldState, newState);
    StepsTogether(counter, Count(states, 0), if newState == FREE then 1 else if oldState == FREE then -1 else 0);
    rc := 0;
  }

  // The counters of the group after one of its entries changed.
  method AdjustCounters(rg: ResourceGroup, oldState: nat, newState: nat)
    requires oldState != newState && rg.rtFree < TWO_32
    modifies rg`rtFree, rg`rtDinodes
    ensures rg.rtFree == (old(rg.rtFree) + if newState == FREE then 1 else if oldState == FREE then -1 else 0) % TWO_32
    ensures rg.rtDinodes == old(rg.rtDinodes) + (if oldState == DINODE then if old(rg.rtDinodes) > 0 then -1 else 0
                                                 else if oldState != UNLINKED && newState == DINODE then 1 else 0)
  {
    if newState == FREE {
      rg.rtFree := (rg.rtFree + 1) % TWO_32;
    } else if oldState == FREE {
      rg.rtFree := (rg.rtFree - 1) % TWO_32;
    }
    if oldState == DINODE || oldState == UNLINKED {
      if oldState == DINODE {
        if rg.rtDinodes > 0 {
          rg.rtDinodes := rg.rtDinodes - 1;
        }
      }
    } else if newState == DINODE {
      rg.rtDinodes := rg.rtDinodes + 1;
    }
  }

  lemma StepsTogether(counter: int, n: int, step: int)
    ensures ((counter + step) % TWO_32 - (n + step)) % TWO_32 == (counter - n) % TWO_32
  {
    var q := (counter + step) / TWO_32;
    assert (counter + step) % TWO_32 == counter + step - q * TWO_32;
  }

  // How far the inode counter gets ahead of the number of inodes: an unlinked inode that becomes an inode again
  // is not counted, and a counter that is zero already does not go down.
  ghost function Drift(states: seq<bv8>, dinodes: nat, rc: int, n: int, newState: nat): int {
    if rc != 0 || n < 0 || n >= |states| || newState > DINODE || states[n] == Bits2(newState) then 0
    else if states[n] == 2 && newState == DINODE then -1
    else if states[n] == 3 && dinodes == 0 then 1
    else 0
  }

  // An unlinked inode that becomes an inode again, in any group whose counter is right: now it is one too small.
  method InodeAgain(rg: ResourceGroup, blk: nat) returns (rc: int)
    requires rg.Valid() && rg.data0 <= blk < rg.data0 + rg.data && rg.rtFree < TWO_32
    requires rg.States()[blk - rg.data0] == 2 && rg.rtDinodes == Count(rg.States(), 3)
    modifies rg`buf, rg`rtFree, rg`rtDinodes
    ensures rc == 0 && rg.Valid() && rg.rtDinodes == Count(rg.States(), 3) - 1
  {
    hide Count, Laid, StateOf, Loaded, ResourceGroup.States;
    rg.RangeTest(blk);
    rc := CheckNFixBitmap(rg, blk, false, DINODE);
  }

  // One request to change the state of a block.
  datatype Request = Request(blk: nat, errorOnDinode: bool, newState: nat)

  ghost predicate Acceptable(rg: ResourceGroup, r: Request) {
    r.blk < TWO_64 && (rg.PassesRangeTest(r.blk) ==> r.blk < rg.data0 + rg.data) && r.newState <= DINODE
  }

  // Any run of requests keeps the free counter together with the bitmap.
  method CheckNFixAll(rg: ResourceGroup, requests: seq<Request>)
    requires rg.Valid() && rg.rtFree < TWO_32 && forall i | 0 <= i < |requests| :: Acceptable(rg, requests[i])
    modifies rg`buf, rg`rtFree, rg`rtDinodes
    ensures rg.Valid() && rg.rtFree < TWO_32
    ensures (rg.rtFree - Count(rg.States(), 0)) % TWO_32 == old(rg.rtFree - Count(rg.States(), 0)) % TWO_32
  {
    hide Count, Laid, StateOf, Loaded, ResourceGroup.States, ResourceGroup.PassesRangeTest;
    for i := 0 to |requests|
      invariant rg.Valid() && rg.rtFree < TWO_32
      invariant (rg.rtFree - Count(rg.States(), 0)) % TWO_32 == old(rg.rtFree - Count(rg.States(), 0)) % TWO_32
    {
      var r := requests[i];
      var _ := CheckNFixBitmap(rg, r.blk, r.errorOnDinode, r.newState);
    }
  }
}
