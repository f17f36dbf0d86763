/**
 Tearing down the metadata tree of a GFS1 inode: what the list of its blocks holds while it grows.
 */
module TearDown {
  import opened MetaPaths
  import opened MetaTrees
  import opened Blocks
  import opened Heights

  // struct blocklist: a metadata block of the old tree with its path, its level and its pointers.
  datatype Blocklist = Blocklist(block: nat, mp: seq<nat>, height: nat, ptrbuf: seq<nat>)

  // The pointer buffer read from block b; a dinode has fewer pointers than the buffer has slots.
  function PtrBuf(disk: Disk, lay: Layout, slots: nat, b: nat): (p: seq<nat>)
    ensures |p| == slots && forall i | 0 <= i < slots :: p[i] == Ptr(disk, lay, b, i)
  {
    seq(slots, i requires 0 <= i => Ptr(disk, lay, b, i))
  }

  // A list item describes a block of the old tree.
  ghost predicate Describes(it: Blocklist, disk: Disk, lay: Layout, own: Owners, slots: nat) {
    && it.block in own && it.height == |own[it.block]| && |it.mp| == MAX_META_HEIGHT && it.height <= MAX_META_HEIGHT
    && it.mp[..it.height] == own[it.block]
    && it.ptrbuf == PtrBuf(disk, lay, slots, it.block)
  }

  // The state of the tear-down: pos numbers the blocks listed so far. Every listed block but the first was
  // found in a slot already visited, and every slot already visited has its block listed. Visited are the
  // slots of the blocks before idx, and the first ptrnum slots of block idx.
  ghost predicate Listing(disk: Disk, lay: Layout, own: Owners, slots: nat, depth: nat,
                          blocks: seq<Blocklist>, pos: map<nat, nat>, idx: nat, ptrnum: nat) {
    && Numbered(blocks, pos) && lay.dinode in pos && pos[lay.dinode] == 0
    && (forall k | 0 <= k < |blocks| :: Describes(blocks[k], disk, lay, own, slots))
    && (forall b | b in pos && b != lay.dinode :: Visited(disk, lay, own, pos, idx, ptrnum, b))
    && forall b | b in pos :: FoundFrom(disk, lay, own, depth, pos, idx, ptrnum, b)
  }

  ghost predicate Numbered(blocks: seq<Blocklist>, pos: map<nat, nat>) {
    && |blocks| > 0 && |pos| == |blocks|
    && (forall k | 0 <= k < |blocks| :: blocks[k].block in pos && pos[blocks[k].block] == k)
    && forall b | b in pos :: pos[b] < |blocks| && blocks[pos[b]].block == b
  }

  // Block b was found in a slot already visited.
  ghost predicate Visited(disk: Disk, lay: Layout, own: Owners, pos: map<nat, nat>, idx: nat, ptrnum: nat, b: nat) {
    b in own && own[b] != [] && VisitedSlot(pos, idx, ptrnum, WalkTo(disk, lay, own[b][..|own[b]| - 1]),
                                            own[b][|own[b]| - 1])
  }

  ghost predicate VisitedSlot(pos: map<nat, nat>, idx: nat, ptrnum: nat, b: nat, i: nat) {
    b in pos && (pos[b] < idx || (pos[b] == idx && i < ptrnum))
  }

  // What the visited slots of b point to is listed.
  ghost predicate FoundFrom(disk: Disk, lay: Layout, own: Owners, depth: nat, pos: map<nat, nat>, idx: nat,
                            ptrnum: nat, b: nat) {
    b in own && (|own[b]| < depth ==>
      forall i | VisitedSlot(pos, idx, ptrnum, b, i) && Ptr(disk, lay, b, i) != 0 :: Ptr(disk, lay, b, i) in pos)
  }

  // A pointer in a slot not visited yet leads to a block not listed yet.
  lemma NotListed(disk: Disk, lay: Layout, own: Owners, slots: nat, depth: nat,
                  blocks: seq<Blocklist>, pos: map<nat, nat>, idx: nat, ptrnum: nat)
    requires Listing(disk, lay, own, slots, depth, blocks, pos, idx, ptrnum) && idx < |blocks|
    requires Tree(disk, lay, own, depth) && Reached(disk, lay, own)
    requires |own[blocks[idx].block]| < depth && Ptr(disk, lay, blocks[idx].block, ptrnum) != 0
    ensures Ptr(disk, lay, blocks[idx].block, ptrnum) !in pos
  {
    var b := blocks[idx].block;
    var nb := Ptr(disk, lay, b, ptrnum);
    assert nb in own && own[nb] == own[b] + [ptrnum];
    assert own[nb][..|own[nb]| - 1] == own[b];
    assert nb != lay.dinode && !Visited(disk, lay, own, pos, idx, ptrnum, nb);
  }

  // Listing one more block.
  lemma ListedOne(disk: Disk, lay: Layout, own: Owners, slots: nat, depth: nat,
                  blocks: seq<Blocklist>, pos: map<nat, nat>, idx: nat, ptrnum: nat, it: Blocklist)
    requires Listing(disk, lay, own, slots, depth, blocks, pos, idx, ptrnum) && idx < |blocks|
    requires Tree(disk, lay, own, depth) && Reached(disk, lay, own)
    requires |own[blocks[idx].block]| < depth
    requires it.block == Ptr(disk, lay, blocks[idx].block, ptrnum) != 0 && Describes(it, disk, lay, own, slots)
    ensures it.block !in pos
    ensures Listing(disk, lay, own, slots, depth, blocks + [it], pos[it.block := |blocks|], idx, ptrnum + 1)
  {
    NotListed(disk, lay, own, slots, depth, blocks, pos, idx, ptrnum);
    assert own[it.block][..|own[it.block]| - 1] == own[blocks[idx].block];
    AddedOne(disk, lay, own, slots, depth, blocks, pos, idx, ptrnum, it);
  }

  lemma AddedOne(disk: Disk, lay: Layout, own: Owners, slots: nat, depth: nat,
                 blocks: seq<Blocklist>, pos: map<nat, nat>, idx: nat, ptrnum: nat, it: Blocklist)
    requires Listing(disk, lay, own, slots, depth, blocks, pos, idx, ptrnum) && idx < |blocks|
    requires it.block == Ptr(disk, lay, blocks[idx].block, ptrnum) && Describes(it, disk, lay, own, slots)
    requires it.block !in pos && it.block in own && own[it.block] != [] && blocks[idx].block in own
    requires own[it.block][..|own[it.block]| - 1] == own[blocks[idx].block]
    requires own[it.block][|own[it.block]| - 1] == ptrnum
    requires WalkTo(disk, lay, own[blocks[idx].block]) == blocks[idx].block
    ensures Listing(disk, lay, own, slots, depth, blocks + [it], pos[it.block := |blocks|], idx, ptrnum + 1)
  {
    hide Describes, WalkTo, Ptr, VisitedSlot;
    var z, pos' := it.block, pos[it.block := |blocks|];
    VisitedMore(pos, pos', idx, ptrnum, ptrnum + 1, blocks[idx].block);
    NumberedOne(blocks, pos, it);
    forall c | c in pos' && c != lay.dinode ensures Visited(disk, lay, own, pos', idx, ptrnum + 1, c) {
      if c != z { assert Visited(disk, lay, own, pos, idx, ptrnum, c); }
    }
    forall c | c in pos' ensures FoundFrom(disk, lay, own, depth, pos', idx, ptrnum + 1, c) {
      if c != z {
        assert FoundFrom(disk, lay, own, depth, pos, idx, ptrnum, c);
        FoundOne(disk, lay, own, depth, blocks, pos, idx, ptrnum, z, c);
      }
    }
  }

  lemma VisitedMore(pos: map<nat, nat>, pos': map<nat, nat>, idx: nat, ptrnum: nat, next: nat, b: nat)
    requires b in pos && pos[b] == idx && next == ptrnum + 1 && forall c | c in pos :: c in pos' && pos'[c] == pos[c]
    ensures VisitedSlot(pos', idx, next, b, ptrnum)
    ensures forall c, i | VisitedSlot(pos, idx, ptrnum, c, i) :: VisitedSlot(pos', idx, next, c, i)
    ensures forall c, i | c in pos' && pos'[c] > idx :: !VisitedSlot(pos', idx, next, c, i)
  {
  }

  lemma NumberedOne(blocks: seq<Blocklist>, pos: map<nat, nat>, it: Blocklist)
    requires Numbered(blocks, pos) && it.block !in pos
    ensures Numbered(blocks + [it], pos[it.block := |blocks|])
  {
  }

  lemma FoundOne(disk: Disk, lay: Layout, own: Owners, depth: nat, blocks: seq<Blocklist>, pos: map<nat, nat>,
                 idx: nat, ptrnum: nat,
                 z: nat, c: nat)
    requires FoundFrom(disk, lay, own, depth, pos, idx, ptrnum, c) && c != z && c in pos && z !in pos
    requires Numbered(blocks, pos) && idx < |blocks| && z == Ptr(disk, lay, blocks[idx].block, ptrnum)
    ensures FoundFrom(disk, lay, own, depth, pos[z := |blocks|], idx, ptrnum + 1, c)
  {
    var pos' := pos[z := |blocks|];
    if |own[c]| < depth {
      forall i | VisitedSlot(pos', idx, ptrnum + 1, c, i) && Ptr(disk, lay, c, i) != 0
        ensures Ptr(disk, lay, c, i) in pos' {
        if !VisitedSlot(pos, idx, ptrnum, c, i) {
          assert pos[c] == idx && i == ptrnum;
        }
      }
    }
  }

  // Passing over an empty slot.
  lemma ListedNone(disk: Disk, lay: Layout, own: Owners, slots: nat, depth: nat,
                   blocks: seq<Blocklist>, pos: map<nat, nat>, idx: nat, ptrnum: nat)
    requires Listing(disk, lay, own, slots, depth, blocks, pos, idx, ptrnum) && idx < |blocks|
    requires Ptr(disk, lay, blocks[idx].block, ptrnum) == 0
    ensures Listing(disk, lay, own, slots, depth, blocks, pos, idx, ptrnum + 1)
  {
    forall c | c in pos && c != lay.dinode ensures Visited(disk, lay, own, pos, idx, ptrnum + 1, c) {
      assert Visited(disk, lay, own, pos, idx, ptrnum, c);
    }
    forall c | c in pos ensures FoundFrom(disk, lay, own, depth, pos, idx, ptrnum + 1, c) {
      assert FoundFrom(disk, lay, own, depth, pos, idx, ptrnum, c);
    }
  }

  // A block is finished when its slots are, or when it is at the bottom.
  lemma ListedBlock(disk: Disk, lay: Layout, own: Owners, slots: nat, depth: nat,
                    blocks: seq<Blocklist>, pos: map<nat, nat>, idx: nat, ptrnum: nat)
    requires Listing(disk, lay, own, slots, depth, blocks, pos, idx, ptrnum) && idx < |blocks|
    requires |own[blocks[idx].block]| >= depth || forall i | i >= ptrnum :: Ptr(disk, lay, blocks[idx].block, i) == 0
    ensures Listing(disk, lay, own, slots, depth, blocks, pos, idx + 1, 0)
  {
    forall c | c in pos && c != lay.dinode ensures Visited(disk, lay, own, pos, idx + 1, 0, c) {
      assert Visited(disk, lay, own, pos, idx, ptrnum, c);
    }
    forall c | c in pos ensures FoundFrom(disk, lay, own, depth, pos, idx + 1, 0, c) {
      assert FoundFrom(disk, lay, own, depth, pos, idx, ptrnum, c);
      assert pos[c] == idx ==> c == blocks[idx].block;
    }
  }

  // When every listed block was processed, every block of the tree is listed.
  lemma {:induction false} AllListed(disk: Disk, lay: Layout, own: Owners, slots: nat, depth: nat,
                                     blocks: seq<Blocklist>, pos: map<nat, nat>, b: nat)
    requires Listing(disk, lay, own, slots, depth, blocks, pos, |blocks|, 0)
    requires Tree(disk, lay, own, depth) && Reached(disk, lay, own) && b in own
    ensures b in pos
    decreases |own[b]|
  {
    if own[b] != [] {
      var q, i := own[b][..|own[b]| - 1], own[b][|own[b]| - 1];
      var y := WalkTo(disk, lay, q);
      assert Ptr(disk, lay, y, i) == b;
      assert y != 0;
      Walked(disk, lay, own, depth, q);
      AllListed(disk, lay, own, slots, depth, blocks, pos, y);
      assert FoundFrom(disk, lay, own, depth, pos, |blocks|, 0, y);
      assert VisitedSlot(pos, |blocks|, 0, y, i);
    }
  }

  // Blocks are listed level by level, and those of one level from left to right.
  ghost predicate Ordered(own: Owners, slots: nat, blocks: seq<Blocklist>) {
    && (forall k | 0 <= k < |blocks| :: blocks[k].block in own)
    && forall j, k | 0 <= j < k < |blocks| :: Before(own, slots, blocks[j].block, blocks[k].block)
  }

  ghost predicate Before(own: Owners, slots: nat, b: nat, c: nat)
    requires b in own && c in own
  {
    |own[b]| < |own[c]| || (|own[b]| == |own[c]| && Value(own[b], slots) < Value(own[c], slots))
  }

  // Of two blocks the children keep the order, and so do the children of one block.
  lemma ChildBefore(p: seq<nat>, d: nat, q: seq<nat>, e: nat, slots: nat)
    requires d < slots
    requires |p| < |q| || (|p| == |q| && Value(p, slots) < Value(q, slots)) || (p == q && d < e)
    ensures |p + [d]| < |q + [e]| ||
      (|p + [d]| == |q + [e]| && Value(p + [d], slots) < Value(q + [e], slots))
  {
    ValueSnoc(p, d, slots);
    ValueSnoc(q, e, slots);
    if |p| == |q| && p != q {
      var v, w := Value(p, slots), Value(q, slots);
      MulMonotone(v + 1, w, slots);
      assert (v + 1) * slots == v * slots + slots;
    }
  }

  // The slot in which a listed block was found.
  lemma FoundIn(disk: Disk, lay: Layout, own: Owners, slots: nat, depth: nat,
                blocks: seq<Blocklist>, pos: map<nat, nat>, idx: nat, ptrnum: nat, c: nat)
    requires Listing(disk, lay, own, slots, depth, blocks, pos, idx, ptrnum) && c in pos && c != lay.dinode
    requires Tree(disk, lay, own, depth) && Reached(disk, lay, own)
    ensures c in own && own[c] != []
    ensures
      var q, d := own[c][..|own[c]| - 1], own[c][|own[c]| - 1];
      var y := WalkTo(disk, lay, q);
      && y in own && own[y] == q && Ptr(disk, lay, y, d) != 0 && own[c] == q + [d]
      && y in pos && pos[y] < |blocks| && blocks[pos[y]].block == y
      && (pos[y] < idx || (pos[y] == idx && d < ptrnum))
  {
    hide Describes, FoundFrom;
    assert Visited(disk, lay, own, pos, idx, ptrnum, c);
    var q, d := own[c][..|own[c]| - 1], own[c][|own[c]| - 1];
    assert WalkTo(disk, lay, own[c]) == c == Ptr(disk, lay, WalkTo(disk, lay, q), d);
    assert WalkTo(disk, lay, q) != 0;
    Walked(disk, lay, own, depth, q);
  }

  // A block found in the slot reached comes after all the blocks on the list.
  lemma OrderedOne(disk: Disk, lay: Layout, own: Owners, slots: nat, depth: nat,
                   blocks: seq<Blocklist>, pos: map<nat, nat>, idx: nat, ptrnum: nat, it: Blocklist)
    requires Listing(disk, lay, own, slots, depth, blocks, pos, idx, ptrnum) && idx < |blocks|
    requires Tree(disk, lay, own, depth) && Reached(disk, lay, own) && Ordered(own, slots, blocks)
    requires forall b, i: nat | b in own && Ptr(disk, lay, b, i) != 0 :: i < slots
    requires it.block in own && own[it.block] == own[blocks[idx].block] + [ptrnum]
    ensures Ordered(own, slots, blocks + [it])
  {
    hide *;
    OrderedFacts(disk, lay, own, slots, depth, blocks, pos, idx, ptrnum);
    forall j | 0 <= j < |blocks| ensures Before(own, slots, blocks[j].block, it.block) {
      OrderedPair(disk, lay, own, slots, depth, blocks, pos, idx, ptrnum, it.block, j);
    }
    OrderedMore(own, slots, blocks, it);
  }

  lemma OrderedPair(disk: Disk, lay: Layout, own: Owners, slots: nat, depth: nat,
                    blocks: seq<Blocklist>, pos: map<nat, nat>, idx: nat, ptrnum: nat, b: nat, j: nat)
    requires Listing(disk, lay, own, slots, depth, blocks, pos, idx, ptrnum) && idx < |blocks| && j < |blocks|
    requires Tree(disk, lay, own, depth) && Reached(disk, lay, own) && Ordered(own, slots, blocks)
    requires forall c, i: nat | c in own && Ptr(disk, lay, c, i) != 0 :: i < slots
    requires b in own && own[b] == own[blocks[idx].block] + [ptrnum]
    ensures Before(own, slots, blocks[j].block, b)
  {
    hide Listing, Tree, Reached, Value, Ptr, WalkTo;
    OrderedFacts(disk, lay, own, slots, depth, blocks, pos, idx, ptrnum);
    var c := blocks[j].block;
    if c != lay.dinode {
      FoundIn(disk, lay, own, slots, depth, blocks, pos, idx, ptrnum, c);
      var q, d := own[c][..|own[c]| - 1], own[c][|own[c]| - 1];
      var y := WalkTo(disk, lay, q);
      assert pos[y] < idx ==> Before(own, slots, y, blocks[idx].block);
      ChildBefore(q, d, own[blocks[idx].block], ptrnum, slots);
    }
  }

  lemma OrderedMore(own: Owners, slots: nat, blocks: seq<Blocklist>, it: Blocklist)
    requires Ordered(own, slots, blocks) && it.block in own
    requires forall j | 0 <= j < |blocks| :: blocks[j].block in own && Before(own, slots, blocks[j].block, it.block)
    ensures Ordered(own, slots, blocks + [it])
  {
    hide Before;
  }

  lemma OrderedFacts(disk: Disk, lay: Layout, own: Owners, slots: nat, depth: nat,
                     blocks: seq<Blocklist>, pos: map<nat, nat>, idx: nat, ptrnum: nat)
    requires Listing(disk, lay, own, slots, depth, blocks, pos, idx, ptrnum) && Tree(disk, lay, own, depth)
    ensures lay.dinode in own && own[lay.dinode] == []
    ensures forall k | 0 <= k < |blocks| :: blocks[k].block in own && blocks[k].block in pos
    ensures forall k | 0 <= k < |blocks| :: pos[blocks[k].block] == k
  {
  }

  // A dinode of the given size without pointers.
  ghost predicate Blank(disk: Disk, dinode: nat, words: nat) {
    dinode in disk && |disk[dinode]| == words && forall i | DINODE_WORDS <= i < words :: disk[dinode][i] == 0
  }

  // How the disk looks while the old tree is being torn down: the listed blocks lost their pointers.
  ghost predicate Torn(disk0: Disk, disk: Disk, lay: Layout, words: nat, pos: map<nat, nat>) {
    && disk.Keys == disk0.Keys
    && (forall b | b in disk && b !in pos :: disk[b] == disk0[b])
    && (forall b | b in disk && b in pos :: |disk[b]| == words)
    && (lay.dinode in pos && lay.dinode in disk ==> forall i | DINODE_WORDS <= i < |disk[lay.dinode]| ::
        disk[lay.dinode][i] == 0)
  }

  // The old tree: dinode and indirect blocks, each reached along exactly one path, none of them free.
  ghost predicate OldTree(disk: Disk, free: set<nat>, lay: Layout, words: nat, own: Owners, depth: nat) {
    && words >= 64 && depth < MAX_META_HEIGHT && lay.header == GFS1_INDIRECT_WORDS
    && Tree(disk, lay, own, depth) && Reached(disk, lay, own)
    && (forall b | b in own && b in disk :: |disk[b]| == words)
    && forall b | b in free :: b != 0 && b in disk && b !in own
  }

  // The inode before it is torn down.
  datatype OldInode = OldInode(disk: Disk, free: set<nat>, lay: Layout, words: nat, own: Owners, depth: nat)

  // The whole state of the tear-down of the inode o.
  ghost predicate Tearing(o: OldInode, disk: Disk, free: set<nat>, blocks: seq<Blocklist>, pos: map<nat, nat>,
                          idx: nat, ptrnum: nat) {
    && OldTree(o.disk, o.free, o.lay, o.words, o.own, o.depth)
    && Listing(o.disk, o.lay, o.own, o.words - GFS1_INDIRECT_WORDS, o.depth, blocks, pos, idx, ptrnum)
    && Ordered(o.own, o.words - GFS1_INDIRECT_WORDS, blocks) && Torn(o.disk, disk, o.lay, o.words, pos)
    && free == o.free + (pos.Keys - {o.lay.dinode})
  }

  lemma TearStart(o: OldInode)
    requires OldTree(o.disk, o.free, o.lay, o.words, o.own, o.depth)
    ensures o.lay.dinode in o.disk && |o.disk[o.lay.dinode]| == o.words
    ensures
      var w := o.disk[o.lay.dinode];
      var it := Blocklist(o.lay.dinode, Zeros(MAX_META_HEIGHT), 0,
                          w[DINODE_WORDS..] + Zeros(DINODE_WORDS - GFS1_INDIRECT_WORDS));
      var disk := o.disk[o.lay.dinode := w[..DINODE_WORDS] + Zeros(o.words - DINODE_WORDS)];
      Tearing(o, disk, o.free, [it], map[o.lay.dinode := 0], 0, 0)
  {
    var w := o.disk[o.lay.dinode];
    var it := Blocklist(o.lay.dinode, Zeros(MAX_META_HEIGHT), 0,
                        w[DINODE_WORDS..] + Zeros(DINODE_WORDS - GFS1_INDIRECT_WORDS));
    assert it.ptrbuf == PtrBuf(o.disk, o.lay, o.words - GFS1_INDIRECT_WORDS, o.lay.dinode);
    assert o.free + (map[o.lay.dinode := 0].Keys - {o.lay.dinode}) == o.free;
  }

  // What is known about the block being processed.
  lemma TearFacts(o: OldInode, disk: Disk, free: set<nat>, blocks: seq<Blocklist>, pos: map<nat, nat>, idx: nat,
                  ptrnum: nat)
    requires Tearing(o, disk, free, blocks, pos, idx, ptrnum) && idx < |blocks|
    ensures o.words >= 64 && o.depth < MAX_META_HEIGHT && OldTree(o.disk, o.free, o.lay, o.words, o.own, o.depth)
    ensures |blocks[idx].mp| == MAX_META_HEIGHT && |blocks[idx].ptrbuf| == o.words - GFS1_INDIRECT_WORDS
    ensures blocks[idx].block in o.own && blocks[idx].block in o.disk && |o.disk[blocks[idx].block]| == o.words
    ensures blocks[idx].height == |o.own[blocks[idx].block]| && blocks[idx].height <= MAX_META_HEIGHT
    ensures blocks[idx].mp[..blocks[idx].height] == o.own[blocks[idx].block]
    ensures blocks[idx].ptrbuf == PtrBuf(o.disk, o.lay, o.words - GFS1_INDIRECT_WORDS, blocks[idx].block)
  {
    hide Ordered, Reached, FoundFrom, Visited, Torn;
    assert Describes(blocks[idx], o.disk, o.lay, o.own, o.words - GFS1_INDIRECT_WORDS);
  }

  lemma TearSize(o: OldInode, disk: Disk, free: set<nat>, blocks: seq<Blocklist>, pos: map<nat, nat>, idx: nat,
                 ptrnum: nat)
    requires Tearing(o, disk, free, blocks, pos, idx, ptrnum)
    ensures |blocks| <= |o.own| && forall b | b in pos :: b in o.own
  {
    hide OldTree, Torn, Visited, FoundFrom, PtrBuf;
    forall b | b in pos ensures b in o.own {
      assert Describes(blocks[pos[b]], o.disk, o.lay, o.own, o.words - GFS1_INDIRECT_WORDS);
    }
    hide Listing;
    assert pos.Keys <= o.own.Keys;
    SubsetSize(pos.Keys, o.own.Keys);
  }

  lemma PtrBufOfIndirect(disk: Disk, lay: Layout, words: nat, b: nat)
    requires b != lay.dinode && b != 0 && b in disk && |disk[b]| == words >= lay.header
    ensures disk[b][lay.header..] == PtrBuf(disk, lay, words - lay.header, b)
  {
  }

  lemma TornOne(disk0: Disk, disk: Disk, lay: Layout, words: nat, pos: map<nat, nat>, b: nat, n: nat, w: seq<nat>)
    requires Torn(disk0, disk, lay, words, pos) && b in disk && b != lay.dinode && b !in pos && |w| == words
    ensures Torn(disk0, disk[b := w], lay, words, pos[b := n])
  {
  }

  // The next block on the list: where it comes from ...
  lemma NextPlace(disk0: Disk, free0: set<nat>, lay: Layout, own: Owners, words: nat, depth: nat,
                  blocks: seq<Blocklist>, pos: map<nat, nat>, idx: nat, ptrnum: nat) returns (b: nat)
    requires OldTree(disk0, free0, lay, words, own, depth)
    requires Listing(disk0, lay, own, words - GFS1_INDIRECT_WORDS, depth, blocks, pos, idx, ptrnum)
    requires idx < |blocks| && blocks[idx].height < depth && ptrnum < |blocks[idx].ptrbuf|
    requires blocks[idx].ptrbuf[ptrnum] != 0
    ensures Describes(blocks[idx], disk0, lay, own, words - GFS1_INDIRECT_WORDS) && depth < MAX_META_HEIGHT
    ensures b == blocks[idx].ptrbuf[ptrnum] == Ptr(disk0, lay, blocks[idx].block, ptrnum)
    ensures b in own && own[b] == own[blocks[idx].block] + [ptrnum] && b in disk0 && |disk0[b]| == words
    ensures b != 0 && b != lay.dinode && b !in pos && b !in free0
  {
    hide Ptr, WalkTo;
    var up := blocks[idx];
    assert Describes(up, disk0, lay, own, words - GFS1_INDIRECT_WORDS);
    b := up.ptrbuf[ptrnum];
    NotListed(disk0, lay, own, words - GFS1_INDIRECT_WORDS, depth, blocks, pos, idx, ptrnum);
    hide Listing;
  }

  lemma TornSame(disk0: Disk, disk: Disk, lay: Layout, words: nat, pos: map<nat, nat>, b: nat)
    requires Torn(disk0, disk, lay, words, pos) && b in disk0 && b !in pos
    ensures b in disk && disk[b] == disk0[b]
  {
  }

  lemma DescribesNext(disk0: Disk, lay: Layout, own: Owners, words: nat, up: Blocklist, ptrnum: nat, mp: seq<nat>,
                      b: nat)
    requires words >= 64 && lay.header == GFS1_INDIRECT_WORDS
    requires Describes(up, disk0, lay, own, words - GFS1_INDIRECT_WORDS) && up.height < |mp| == MAX_META_HEIGHT
    requires mp[..up.height + 1] == up.mp[..up.height] + [ptrnum]
    requires b in own && own[b] == own[up.block] + [ptrnum] && b != 0 && b != lay.dinode && b in disk0
    requires |disk0[b]| == words
    ensures Describes(Blocklist(b, mp, up.height + 1, disk0[b][GFS1_INDIRECT_WORDS..]), disk0, lay, own,
                      words - GFS1_INDIRECT_WORDS)
  {
    hide PtrBuf;
    PtrBufOfIndirect(disk0, lay, words, b);
  }

  // ... and what it looks like.
  lemma NextBlock(disk0: Disk, free0: set<nat>, disk: Disk, lay: Layout, own: Owners, words: nat, depth: nat,
                  blocks: seq<Blocklist>, pos: map<nat, nat>, idx: nat, ptrnum: nat, mp: seq<nat>) returns (b: nat)
    requires OldTree(disk0, free0, lay, words, own, depth)
    requires Listing(disk0, lay, own, words - GFS1_INDIRECT_WORDS, depth, blocks, pos, idx, ptrnum)
    requires Torn(disk0, disk, lay, words, pos)
    requires idx < |blocks| && blocks[idx].height < depth && ptrnum < |blocks[idx].ptrbuf|
    requires blocks[idx].ptrbuf[ptrnum] != 0
    requires |mp| == |blocks[idx].mp| && blocks[idx].height < |mp|
    requires mp[..blocks[idx].height + 1] == blocks[idx].mp[..blocks[idx].height] + [ptrnum]
    ensures b == blocks[idx].ptrbuf[ptrnum] && b in disk && |disk[b]| == words && b != lay.dinode && b !in pos
    ensures b !in free0 && blocks[idx].block in own && b in own && own[b] == own[blocks[idx].block] + [ptrnum]
    ensures
      var it := Blocklist(b, mp, blocks[idx].height + 1, disk[b][GFS1_INDIRECT_WORDS..]);
      Listing(disk0, lay, own, words - GFS1_INDIRECT_WORDS, depth, blocks + [it], pos[b := |blocks|], idx, ptrnum + 1)
  {
    hide *;
    OldTreeFacts(disk0, free0, lay, words, own, depth);
    b := NextPlace(disk0, free0, lay, own, words, depth, blocks, pos, idx, ptrnum);
    TornSame(disk0, disk, lay, words, pos, b);
    DescribesFacts(blocks[idx], disk0, lay, own, words - GFS1_INDIRECT_WORDS);
    DescribesNext(disk0, lay, own, words, blocks[idx], ptrnum, mp, b);
    ListedOne(disk0, lay, own, words - GFS1_INDIRECT_WORDS, depth, blocks, pos, idx, ptrnum,
              Blocklist(b, mp, blocks[idx].height + 1, disk[b][GFS1_INDIRECT_WORDS..]));
  }

  lemma OldTreeFacts(disk: Disk, free: set<nat>, lay: Layout, words: nat, own: Owners, depth: nat)
    requires OldTree(disk, free, lay, words, own, depth)
    ensures words >= 64 && depth < MAX_META_HEIGHT == 10 && lay.header == GFS1_INDIRECT_WORDS == 11
    ensures Tree(disk, lay, own, depth) && Reached(disk, lay, own)
  {
  }

  lemma DescribesFacts(it: Blocklist, disk: Disk, lay: Layout, own: Owners, slots: nat)
    requires Describes(it, disk, lay, own, slots)
    ensures it.block in own && it.height == |own[it.block]| <= MAX_META_HEIGHT == |it.mp| == 10 && |it.ptrbuf| == slots
    ensures it.mp[..it.height] == own[it.block] && it.ptrbuf == PtrBuf(disk, lay, slots, it.block)
  {
  }

  lemma SlotsInside(o: OldInode)
    requires OldTree(o.disk, o.free, o.lay, o.words, o.own, o.depth)
    ensures forall b, i: nat | b in o.own && Ptr(o.disk, o.lay, b, i) != 0 :: i < o.words - GFS1_INDIRECT_WORDS
  {
  }

  lemma TearOne(o: OldInode, disk: Disk, free: set<nat>, blocks: seq<Blocklist>, pos: map<nat, nat>, idx: nat,
                ptrnum: nat, mp: seq<nat>)
    requires Tearing(o, disk, free, blocks, pos, idx, ptrnum)
    requires idx < |blocks| && blocks[idx].height < o.depth && ptrnum < |blocks[idx].ptrbuf|
    requires blocks[idx].ptrbuf[ptrnum] != 0
    requires |mp| == |blocks[idx].mp| && blocks[idx].height < |mp|
    requires mp[..blocks[idx].height + 1] == blocks[idx].mp[..blocks[idx].height] + [ptrnum]
    ensures
      var b := blocks[idx].ptrbuf[ptrnum];
      && b in disk && |disk[b]| == o.words && o.words >= 64 && b !in free
      && var it := Blocklist(b, mp, blocks[idx].height + 1, disk[b][GFS1_INDIRECT_WORDS..]);
      var disk' := disk[b := disk[b][..GFS1_INDIRECT_WORDS] + Zeros(o.words - GFS1_INDIRECT_WORDS)];
      Tearing(o, disk', free + {b}, blocks + [it], pos[b := |blocks|], idx, ptrnum + 1)
  {
    hide Listing, Torn, Ordered, Tree, Reached;
    var b := NextBlock(o.disk, o.free, disk, o.lay, o.own, o.words, o.depth, blocks, pos, idx, ptrnum, mp);
    var pos' := pos[b := |blocks|];
    var w := disk[b][..GFS1_INDIRECT_WORDS] + Zeros(o.words - GFS1_INDIRECT_WORDS);
    TornOne(o.disk, disk, o.lay, o.words, pos, b, |blocks|, w);
    SlotsInside(o);
    OrderedOne(o.disk, o.lay, o.own, o.words - GFS1_INDIRECT_WORDS, o.depth, blocks, pos, idx, ptrnum,
               Blocklist(b, mp, blocks[idx].height + 1, disk[b][GFS1_INDIRECT_WORDS..]));
    assert pos'.Keys - {o.lay.dinode} == (pos.Keys - {o.lay.dinode}) + {b};
  }

  lemma TearNone(o: OldInode, disk: Disk, free: set<nat>, blocks: seq<Blocklist>, pos: map<nat, nat>, idx: nat,
                 ptrnum: nat)
    requires Tearing(o, disk, free, blocks, pos, idx, ptrnum)
    requires idx < |blocks| && ptrnum < |blocks[idx].ptrbuf| && blocks[idx].ptrbuf[ptrnum] == 0
    ensures Tearing(o, disk, free, blocks, pos, idx, ptrnum + 1)
  {
    hide OldTree, Torn, Listing;
    TearFacts(o, disk, free, blocks, pos, idx, ptrnum);
    ListedNone(o.disk, o.lay, o.own, o.words - GFS1_INDIRECT_WORDS, o.depth, blocks, pos, idx, ptrnum);
  }

  // Past the end of an old block, and of the shorter dinode, there are no pointers.
  lemma NoMorePtrs(o: OldInode, it: Blocklist, ptrnum: nat)
    requires OldTree(o.disk, o.free, o.lay, o.words, o.own, o.depth) && it.block in o.own
    requires ptrnum >= o.words - GFS1_INDIRECT_WORDS
    ensures forall i | i >= ptrnum :: Ptr(o.disk, o.lay, it.block, i) == 0
  {
  }

  lemma TearBlock(o: OldInode, disk: Disk, free: set<nat>, blocks: seq<Blocklist>, pos: map<nat, nat>, idx: nat,
                  ptrnum: nat)
    requires Tearing(o, disk, free, blocks, pos, idx, ptrnum)
    requires idx < |blocks| && (blocks[idx].height >= o.depth || ptrnum >= o.words - GFS1_INDIRECT_WORDS)
    ensures Tearing(o, disk, free, blocks, pos, idx + 1, 0)
  {
    hide OldTree, Torn, Listing;
    TearFacts(o, disk, free, blocks, pos, idx, ptrnum);
    if blocks[idx].height < o.depth {
      NoMorePtrs(o, blocks[idx], ptrnum);
    }
    ListedBlock(o.disk, o.lay, o.own, o.words - GFS1_INDIRECT_WORDS, o.depth, blocks, pos, idx, ptrnum);
  }

  lemma TearEnd(o: OldInode, disk: Disk, free: set<nat>, blocks: seq<Blocklist>, pos: map<nat, nat>)
    requires Tearing(o, disk, free, blocks, pos, |blocks|, 0)
    ensures pos.Keys == o.own.Keys
  {
    hide Listing, Torn, Tree, Reached;
    TearSize(o, disk, free, blocks, pos, |blocks|, 0);
    forall b | b in o.own ensures b in pos {
      AllListed(o.disk, o.lay, o.own, o.words - GFS1_INDIRECT_WORDS, o.depth, blocks, pos, b);
    }
  }

  lemma {:induction false} SubsetSize<T>(a: set<T>, b: set<T>)
    requires a <= b
    ensures |a| <= |b|
  {
    if a != {} {
      var x :| x in a;
      SubsetSize(a - {x}, b - {x});
    }
  }

  // What is left to know of the list once it is complete.
  ghost predicate Listed(o: OldInode, blocks: seq<Blocklist>, pos: map<nat, nat>) {
    && OldTree(o.disk, o.free, o.lay, o.words, o.own, o.depth) && Numbered(blocks, pos) && pos.Keys == o.own.Keys
    && Ordered(o.own, o.words - GFS1_INDIRECT_WORDS, blocks)
    && forall k | 0 <= k < |blocks| :: Describes(blocks[k], o.disk, o.lay, o.own, o.words - GFS1_INDIRECT_WORDS)
  }

  lemma TearListed(o: OldInode, disk: Disk, free: set<nat>, blocks: seq<Blocklist>, pos: map<nat, nat>)
    requires Tearing(o, disk, free, blocks, pos, |blocks|, 0) && pos.Keys == o.own.Keys
    ensures Listed(o, blocks, pos)
  {
    hide Describes, Visited, FoundFrom, Numbered, Torn, OldTree;
  }

  lemma ListedItem(o: OldInode, blocks: seq<Blocklist>, pos: map<nat, nat>, k: nat)
    requires Listed(o, blocks, pos) && k < |blocks|
    ensures Describes(blocks[k], o.disk, o.lay, o.own, o.words - GFS1_INDIRECT_WORDS)
    ensures blocks[k].block in o.own && blocks[k].height == |o.own[blocks[k].block]|
    ensures blocks[k].block in pos && pos[blocks[k].block] == k
    ensures forall c | c in pos && pos[c] == k :: c == blocks[k].block
  {
    assert Describes(blocks[k], o.disk, o.lay, o.own, o.words - GFS1_INDIRECT_WORDS);
  }

  // Tearing down frees every metadata block of the inode but the dinode.
  lemma TornFree(o: OldInode, disk: Disk, free: set<nat>, blocks: seq<Blocklist>, pos: map<nat, nat>)
    requires Tearing(o, disk, free, blocks, pos, |blocks|, 0) && pos.Keys == o.own.Keys
    ensures |o.own| > 0 && |free| == |o.free| + |o.own| - 1
  {
    hide Listing, Torn, Reached;
    var d := {o.lay.dinode};
    assert o.own.Keys == (o.own.Keys - d) + d;
    assert free == o.free + (o.own.Keys - d);
  }
}
