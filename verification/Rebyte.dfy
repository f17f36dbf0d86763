/**
 Moving the bytes of a GFS1 journaled-data file into GFS2 data blocks. A GFS1 data block starts with a
 metadata header, so the payload of one old block straddles two new ones.
 */
module Rebyte {
  import opened MetaPaths
  import opened MetaTrees
  import opened Blocks
  import opened Heights
  import opened TearDown
  import opened Rebuild
  import opened Remap

  const HEADER_BYTES: nat := 24         // sizeof(struct gfs2_meta_header)

  ghost predicate OldFile(o: OldInode) {
    OldTree(o.disk, o.free, o.lay, o.words, o.own, o.depth)
  }

  // The file bytes an old data block holds.
  ghost function Payload(o: OldInode): (p: nat)
    requires o.words >= 64
    ensures p > 0
  {
    8 * o.words - HEADER_BYTES
  }

  // Where data block n begins in the file.
  ghost function FirstByte(o: OldInode, n: nat): nat
    requires o.words >= 64
  {
    n * Payload(o)
  }

  // Byte r behind the header of data block b; a hole reads as zeros.
  ghost function ByteOf(disk: Disk, b: nat, r: nat): nat {
    if b != 0 && b in disk && HEADER_BYTES + r < |disk[b]| then disk[b][HEADER_BYTES + r] else 0
  }

  // Byte x of the old file.
  ghost function OldByte(o: OldInode, x: nat): nat
    requires o.words >= 64
  {
    ByteOf(o.disk, OldAt(o, Quot(x, Payload(o))), Rem(x, Payload(o)))
  }

  // downs numbers the data blocks of the file: each is in one place only, and is neither free nor metadata.
  ghost predicate DataOf(o: OldInode, downs: map<nat, nat>)
    requires o.words >= 64
  {
    && (forall n: nat | OldAt(o, n) != 0 :: OldAt(o, n) in downs && downs[OldAt(o, n)] == n)
    && forall b | b in downs ::
      && OldAt(o, downs[b]) == b != 0
      && b in o.disk && |o.disk[b]| == 8 * o.words && b !in o.own && b !in o.free
  }

  // How many bytes of data block n are copied: those below the end of the file. The difference is an unsigned
  // 64-bit number, so a block that begins behind the end is copied whole.
  ghost function CopiedLen(o: OldInode, size: nat, n: nat): (len: nat)
    requires o.words >= 64
    ensures len <= Payload(o)
  {
    var left := (size - FirstByte(o, n)) % TWO_64;
    if left < Payload(o) then left else Payload(o)
  }

  lemma CopiedLenIs(o: OldInode, size: nat, n: nat, offset: nat, len: nat)
    requires o.words >= 64 && offset == n * (8 * (o.words - META_HEADER_WORDS))
    requires
      var left := (size - offset) % TWO_64;
      len == if left < 8 * o.words - HEADER_BYTES then left else 8 * o.words - HEADER_BYTES
    ensures len == CopiedLen(o, size, n) <= 8 * o.words - HEADER_BYTES && offset == FirstByte(o, n)
  {
    assert 8 * (o.words - META_HEADER_WORDS) == Payload(o);
  }

  ghost predicate Kept(o: OldInode, size: nat, x: nat)
    requires o.words >= 64
  {
    Rem(x, Payload(o)) < CopiedLen(o, size, Quot(x, Payload(o)))
  }

  // Every byte below the end of the file is copied, ...
  lemma KeptBelow(o: OldInode, size: nat, x: nat)
    requires o.words >= 64 && x < size < TWO_64
    ensures Kept(o, size, x)
  {
    QuotRem(x, Payload(o));
  }

  // ... and if it has no data block behind its end, nothing is there afterwards.
  lemma NothingBehind(o: OldInode, size: nat, x: nat)
    requires o.words >= 64 && size <= x && size < TWO_64
    requires forall n: nat | OldAt(o, n) != 0 :: FirstByte(o, n) < size
    ensures Kept(o, size, x) ==> OldByte(o, x) == 0
  {
    QuotRem(x, Payload(o));
    hide OldAt, Quot, Rem;
  }

  // What is copied has room in the new file, and the offsets are 64-bit numbers.
  ghost predicate DataFits(o: OldInode, size: nat, cap: nat)
    requires o.words >= 64
  {
    forall n: nat | OldAt(o, n) != 0 ::
      FirstByte(o, n) < TWO_64 && (CopiedLen(o, size, n) > 0 ==> FirstByte(o, n) + CopiedLen(o, size, n) <= cap)
  }

  // There is room exactly if the path of every byte that is copied stays inside the blocks of the new tree.
  lemma DataFitsIsInside(o: OldInode, size: nat, g: Shape, top: nat)
    requires o.words >= 64 && Sound(g) && forall n: nat | OldAt(o, n) != 0 :: FirstByte(o, n) < TWO_64
    ensures DataFits(o, size, Room(g, top)) <==>
      forall x: nat | Kept(o, size, x) && OldAt(o, Quot(x, Payload(o))) != 0 :: Inside(x, g, top)
  {
    hide OldAt, CopiedLen, Room, Inside, Kept, Quot;
    forall x: nat ensures Inside(x, g, top) <==> x < Room(g, top) {
      PathInside(x, g, top);
    }
    if DataFits(o, size, Room(g, top)) {
      forall x: nat | Kept(o, size, x) && OldAt(o, Quot(x, Payload(o))) != 0 ensures x < Room(g, top) {
        PayloadRange(o, Quot(x, Payload(o)), size, x);
      }
    }
    if forall x: nat | Kept(o, size, x) && OldAt(o, Quot(x, Payload(o))) != 0 :: Inside(x, g, top) {
      forall n: nat | OldAt(o, n) != 0 && CopiedLen(o, size, n) > 0
        ensures FirstByte(o, n) + CopiedLen(o, size, n) <= Room(g, top)
      {
        var x := FirstByte(o, n) + (CopiedLen(o, size, n) - 1);
        PayloadRange(o, n, size, x);
        assert Inside(x, g, top);
      }
    }
  }

  lemma BlockFits(o: OldInode, size: nat, cap: nat, n: nat)
    requires o.words >= 64 && DataFits(o, size, cap) && OldAt(o, n) != 0
    ensures FirstByte(o, n) < TWO_64
    ensures CopiedLen(o, size, n) > 0 ==> FirstByte(o, n) + CopiedLen(o, size, n) <= cap
  {
  }

  // A file without data blocks behind its end fits when the tree has room for its size.
  lemma DataBelowFits(o: OldInode, size: nat, cap: nat)
    requires o.words >= 64 && size <= cap && size < TWO_64 && forall n: nat | OldAt(o, n) != 0 :: FirstByte(o, n) < size
    ensures DataFits(o, size, cap)
  {
    hide OldAt;
    forall n: nat | OldAt(o, n) != 0 ensures FirstByte(o, n) + CopiedLen(o, size, n) <= size {
    }
  }

  // Block n of the old file was moved: its pointer is among those visited.
  ghost predicate MovedTo(o: OldInode, pos: map<nat, nat>, k: nat, i: nat, n: nat)
    requires o.words >= 64
  {
    VisitedSlot(pos, k, i, BottomOf(o, n), SlotOf(n, OldShape(o)))
  }

  // The bytes copied from the moved blocks are in the new file, and nothing else is.
  ghost predicate Rebyted(o: OldInode, size: nat, pos: map<nat, nat>, k: nat, i: nat, disk: Disk, lay: Layout, g: Shape)
    requires o.words >= 64 && Sound(g)
  {
    forall x: nat :: At(disk, lay, g, x) ==
      if Kept(o, size, x) && MovedTo(o, pos, k, i, Quot(x, Payload(o))) then OldByte(o, x) else 0
  }

  // The data blocks that were not moved yet are as they were, and out of reach of the allocator.
  ghost predicate Pending(o: OldInode, pos: map<nat, nat>, k: nat, i: nat, disk: Disk, own: Owners, free: set<nat>)
    requires o.words >= 64
  {
    forall n: nat | OldAt(o, n) != 0 && !MovedTo(o, pos, k, i, n) ::
      var b := OldAt(o, n);
      b in disk && b in o.disk && disk[b] == o.disk[b] && b !in free && b !in own
  }

  // Only blocks of the old file and free blocks are used or written.
  ghost predicate Confined(o: OldInode, downs: map<nat, nat>, disk: Disk, own: Owners, free: set<nat>) {
    && (forall b | b in o.disk :: b in disk)
    && (forall b | b in o.disk && b !in o.own && b !in o.free && b !in downs :: disk[b] == o.disk[b])
    && (forall b | b in own :: b in o.own || b in o.free || b in downs)
    && forall b | b in free :: b in o.own || b in o.free || b in downs
  }

  // The state between two pointers of the list.
  ghost predicate MovingBytes(o: OldInode, downs: map<nat, nat>, size: nat, blocks: seq<Blocklist>, pos: map<nat, nat>,
                              k: nat, i: nat,
                              disk: Disk, own: Owners, free: set<nat>, lay: Layout, g: Shape)
    requires o.words >= 64 && Sound(g)
  {
    && OldFile(o) && DataOf(o, downs) && Listed(o, blocks, pos)
    && Rebyted(o, size, pos, k, i, disk, lay, g) && Pending(o, pos, k, i, disk, own, free) &&
       Confined(o, downs, disk, own, free)
  }

  // Which blocks count as moved matters only for blocks that exist.
  lemma SameMoved(o: OldInode, downs: map<nat, nat>, size: nat, blocks: seq<Blocklist>, pos: map<nat, nat>, k: nat,
                  i: nat, k': nat, i': nat,
                  disk: Disk, own: Owners, free: set<nat>, lay: Layout, g: Shape)
    requires o.words >= 64 && Sound(g) && MovingBytes(o, downs, size, blocks, pos, k, i, disk, own, free, lay, g)
    requires forall n: nat | OldAt(o, n) != 0 :: MovedTo(o, pos, k, i, n) <==> MovedTo(o, pos, k', i', n)
    ensures MovingBytes(o, downs, size, blocks, pos, k', i', disk, own, free, lay, g)
  {
    hide OldFile, DataOf, Listed, Confined, OldAt, MovedTo, At, Quot, Rem, Kept;
    forall x: nat ensures At(disk, lay, g, x) == if Kept(o, size, x) &&
        MovedTo(o, pos, k', i', Quot(x, Payload(o))) then OldByte(o, x) else 0 {
    }
  }

  // The pointer in slot i of listed block k.
  lemma PointerAt(o: OldInode, blocks: seq<Blocklist>, pos: map<nat, nat>, k: nat, i: nat) returns (n0: nat)
    requires o.words >= 64 && OldFile(o) && Listed(o, blocks, pos) && k < |blocks| && blocks[k].height == o.depth
    requires i < Fan(o)
    ensures |blocks[k].mp| == MAX_META_HEIGHT && o.depth < MAX_META_HEIGHT && |blocks[k].ptrbuf| == Fan(o)
    ensures n0 == Value(blocks[k].mp[..o.depth] + [i], Fan(o)) && OldAt(o, n0) == blocks[k].ptrbuf[i]
    ensures !MovedTo(o, pos, k, i, n0)
    ensures forall n: nat :: MovedTo(o, pos, k, i + 1, n) <==> MovedTo(o, pos, k, i, n) || n == n0
  {
    hide OldTree, Describes, Listed, PathOf, SlotOf, WalkTo, Value, At;
    ListedItem(o, blocks, pos, k);
    OldTreeFacts(o.disk, o.free, o.lay, o.words, o.own, o.depth);
    DescribesFacts(blocks[k], o.disk, o.lay, o.own, Fan(o));
    n0 := SlotPosition(o, blocks[k], i);
    SlotMapped(o, blocks[k], n0);
    forall n: nat ensures MovedTo(o, pos, k, i + 1, n) <==> MovedTo(o, pos, k, i, n) || n == n0 {
      if BottomOf(o, n) == blocks[k].block && SlotOf(n, OldShape(o)) == i {
        OneSlot(o, blocks[k].block, n0, n);
      }
    }
  }

  lemma SlotMapped(o: OldInode, it: Blocklist, n: nat)
    requires o.words >= 64 && OldFile(o) && Describes(it, o.disk, o.lay, o.own, Fan(o)) && it.height == o.depth
    requires BottomOf(o, n) == it.block != 0 && SlotOf(n, OldShape(o)) < Fan(o)
    ensures |it.ptrbuf| == Fan(o) && OldAt(o, n) == it.ptrbuf[SlotOf(n, OldShape(o))]
  {
    hide Tree, Reached, PathOf, SlotOf;
    Walked(o.disk, o.lay, o.own, o.depth, PathOf(n, OldShape(o)));
  }

  // Positions in the same slot of the same block are one.
  lemma OneSlot(o: OldInode, b: nat, n0: nat, n: nat)
    requires o.words >= 64 && OldFile(o) && BottomOf(o, n0) == BottomOf(o, n) == b != 0
    requires SlotOf(n0, OldShape(o)) == SlotOf(n, OldShape(o)) < Fan(o)
    ensures n == n0
  {
    hide PathOf, SlotOf, Ptr;
    Walked(o.disk, o.lay, o.own, o.depth, PathOf(n, OldShape(o)));
    Walked(o.disk, o.lay, o.own, o.depth, PathOf(n0, OldShape(o)));
    SameBottom(n0, OldShape(o), 1, n);
  }

  // Passing over an empty slot.
  lemma NoPointer(o: OldInode, downs: map<nat, nat>, size: nat, blocks: seq<Blocklist>, pos: map<nat, nat>, k: nat,
                  i: nat,
                  disk: Disk, own: Owners, free: set<nat>, lay: Layout, g: Shape)
    requires o.words >= 64 && Sound(g) && MovingBytes(o, downs, size, blocks, pos, k, i, disk, own, free, lay, g)
    requires k < |blocks| && blocks[k].height == o.depth && i < Fan(o)
    requires i < |blocks[k].ptrbuf| && blocks[k].ptrbuf[i] == 0
    ensures MovingBytes(o, downs, size, blocks, pos, k, i + 1, disk, own, free, lay, g)
  {
    hide OldFile, DataOf, Listed, Confined, OldAt, MovedTo, Rebyted, Pending;
    var n0 := PointerAt(o, blocks, pos, k, i);
    SameMoved(o, downs, size, blocks, pos, k, i, k, i + 1, disk, own, free, lay, g);
  }

  // Going on to the next block of the list: this one had no more pointers to data blocks.
  lemma NextItem(o: OldInode, downs: map<nat, nat>, size: nat, blocks: seq<Blocklist>, pos: map<nat, nat>, k: nat,
                 i: nat,
                 disk: Disk, own: Owners, free: set<nat>, lay: Layout, g: Shape)
    requires o.words >= 64 && Sound(g) && MovingBytes(o, downs, size, blocks, pos, k, i, disk, own, free, lay, g)
    requires k < |blocks| && (blocks[k].height != o.depth || i == Fan(o))
    ensures MovingBytes(o, downs, size, blocks, pos, k + 1, 0, disk, own, free, lay, g)
  {
    forall n: nat | OldAt(o, n) != 0 ensures MovedTo(o, pos, k, i, n) <==> MovedTo(o, pos, k + 1, 0, n) {
      DoneWith(o, blocks, pos, k, i, n);
    }
    SameMoved(o, downs, size, blocks, pos, k, i, k + 1, 0, disk, own, free, lay, g);
  }

  lemma DoneWith(o: OldInode, blocks: seq<Blocklist>, pos: map<nat, nat>, k: nat, i: nat, n: nat)
    requires OldFile(o) && Listed(o, blocks, pos) && k < |blocks| && (blocks[k].height != o.depth || i == Fan(o))
    requires OldAt(o, n) != 0
    ensures MovedTo(o, pos, k, i, n) <==> MovedTo(o, pos, k + 1, 0, n)
  {
    ListedItem(o, blocks, pos, k);
    var b := BottomOf(o, n);
    Walked(o.disk, o.lay, o.own, o.depth, PathOf(n, OldShape(o)));
    assert |o.disk[b]| == o.words;
    assert SlotOf(n, OldShape(o)) < Fan(o);
  }

  // The bytes of block n0 in the file.
  lemma PayloadRange(o: OldInode, n0: nat, size: nat, x: nat)
    requires o.words >= 64
    ensures FirstByte(o, n0) <= x < FirstByte(o, n0) + CopiedLen(o, size, n0) <==>
      Kept(o, size, x) && Quot(x, Payload(o)) == n0
    ensures Quot(x, Payload(o)) == n0 ==> x - FirstByte(o, n0) == Rem(x, Payload(o)) < Payload(o)
  {
    var p := Payload(o);
    QuotRem(x, p);
    if n0 * p <= x < n0 * p + CopiedLen(o, size, n0) {
      assert x == n0 * p + (x - n0 * p);
      QuotRemUnique(n0, p, x - n0 * p);
    }
  }

  // Freeing a data block and wiping its payload.
  lemma FreedData(disk: Disk, free: set<nat>, own: Owners, lay: Layout, words: nat, g: Shape, bottom: nat, b: nat,
                  w: seq<nat>)
    requires Sound(g) && BuildingOf(disk, free, own, lay, words, g.depth, bottom) && b != 0 && b in disk && b !in own
    ensures BuildingOf(disk[b := w], free + {b}, own, lay, words, g.depth, bottom)
    ensures forall x: nat :: At(disk[b := w], lay, g, x) == At(disk, lay, g, x)
  {
    var disk' := disk[b := w];
    assert forall c, i | c in own :: Ptr(disk', lay, c, i) == Ptr(disk, lay, c, i);
    forall c | c in own ensures WalkTo(disk', lay, own[c]) == c {
      WalkFrame(disk, disk', lay, own, g.depth, g.depth, own[c]);
    }
    forall x: nat ensures At(disk', lay, g, x) == At(disk, lay, g, x) {
      CellFrame(disk, disk', lay, own, g.depth, g.header, PathOf(x, g), SlotOf(x, g));
    }
  }

  // What the disk held before a data block is moved.
  lemma DataThere(o: OldInode, downs: map<nat, nat>, size: nat, blocks: seq<Blocklist>, pos: map<nat, nat>, k: nat,
                  i: nat,
                  disk: Disk, own: Owners, free: set<nat>, lay: Layout, g: Shape) returns (n0: nat)
    requires o.words >= 64 && Sound(g) && MovingBytes(o, downs, size, blocks, pos, k, i, disk, own, free, lay, g)
    requires k < |blocks| && blocks[k].height == o.depth && i < Fan(o)
    requires i < |blocks[k].ptrbuf| && blocks[k].ptrbuf[i] != 0
    ensures |blocks[k].mp| == MAX_META_HEIGHT && o.depth < MAX_META_HEIGHT
    ensures n0 == Value(blocks[k].mp[..o.depth] + [i], Fan(o))
    ensures
      var b := blocks[k].ptrbuf[i];
      b == OldAt(o, n0) && b in disk && b in o.disk && disk[b] == o.disk[b] && |disk[b]| == 8 * o.words &&
          b !in free && b !in own && b in downs
  {
    hide Rebyted, MovedTo, Confined, OldAt, OldTree, Listed;
    n0 := PointerAt(o, blocks, pos, k, i);
  }

  // Byte x, before and after the payload of block n0 was written.
  lemma ByteMoved(o: OldInode, size: nat, pos: map<nat, nat>, k: nat, i: nat, n0: nat, len: nat, disk: Disk,
                  disk': Disk, lay: Layout, g: Shape, x: nat)
    requires o.words >= 64 && Sound(g) && len == CopiedLen(o, size, n0)
    requires var b := OldAt(o, n0); b != 0 && b in o.disk && |o.disk[b]| == 8 * o.words
    requires !MovedTo(o, pos, k, i, n0)
    requires forall n: nat :: MovedTo(o, pos, k, i + 1, n) <==> MovedTo(o, pos, k, i, n) || n == n0
    requires At(disk, lay, g, x) == if Kept(o, size, x) && MovedTo(o, pos, k, i, Quot(x, Payload(o)))
      then OldByte(o, x) else 0
    requires
      var b, base := OldAt(o, n0), FirstByte(o, n0);
      At(disk', lay, g, x) == if base <= x < base + len then o.disk[b][HEADER_BYTES + (x - base)]
          else At(disk, lay, g, x)
    ensures At(disk', lay, g, x) == if Kept(o, size, x) && MovedTo(o, pos, k, i + 1, Quot(x, Payload(o)))
      then OldByte(o, x) else 0
  {
    hide MovedTo, OldAt, At, Quot, Rem, Kept, CopiedLen;
    PayloadRange(o, n0, size, x);
  }

  // Moving the block in slot i: it is freed and wiped (disk1), then its payload is written (disk2).
  lemma DataMoved(o: OldInode, downs: map<nat, nat>, size: nat, blocks: seq<Blocklist>, pos: map<nat, nat>, k: nat,
                  i: nat, n0: nat, len: nat, w: seq<nat>,
                  disk: Disk, own: Owners, free: set<nat>, taken: int, disk2: Disk, own2: Owners, free2: set<nat>,
                      taken2: int,
                  lay: Layout, g: Shape)
    requires o.words >= 64 && Sound(g)
    requires k < |blocks| && blocks[k].height == o.depth && i < Fan(o)
    requires i < |blocks[k].ptrbuf| && blocks[k].ptrbuf[i] != 0 && |blocks[k].mp| == MAX_META_HEIGHT
    requires o.depth < MAX_META_HEIGHT
    requires n0 == Value(blocks[k].mp[..o.depth] + [i], Fan(o)) && len == CopiedLen(o, size, n0)
    requires
      var b := blocks[k].ptrbuf[i];
      && b in disk && |disk[b]| == 8 * o.words
      && (forall x: nat :: At(disk[b := w], lay, g, x) == At(disk, lay, g, x))
      && Progress(disk[b := w], own, free + {b}, taken, disk2, own2, free2, taken2, lay, g, FirstByte(o, n0),
                  disk[b][HEADER_BYTES..][..len])
    requires MovingBytes(o, downs, size, blocks, pos, k, i, disk, own, free, lay, g)
    ensures MovingBytes(o, downs, size, blocks, pos, k, i + 1, disk2, own2, free2, lay, g)
  {
    hide Listed, OldTree, OldAt, MovedTo, At, Value, BottomOf, Kept, CopiedLen;
    var n1 := DataThere(o, downs, size, blocks, pos, k, i, disk, own, free, lay, g);
    n1 := PointerAt(o, blocks, pos, k, i);
    var b := blocks[k].ptrbuf[i];
    var base := FirstByte(o, n0);
    forall x: nat ensures At(disk2, lay, g, x) == if Kept(o, size, x) &&
        MovedTo(o, pos, k, i + 1, Quot(x, Payload(o))) then OldByte(o, x) else 0 {
      assert At(disk[b := w], lay, g, x) == At(disk, lay, g, x);
      assert base <= x < base + len ==>
          disk[b][HEADER_BYTES..][..len][x - base] == o.disk[b][HEADER_BYTES + (x - base)];
      ByteMoved(o, size, pos, k, i, n0, len, disk, disk2, lay, g, x);
    }
    assert Pending(o, pos, k, i + 1, disk2, own2, free2) by {
      forall n: nat | OldAt(o, n) != 0 && !MovedTo(o, pos, k, i + 1, n)
        ensures var c := OldAt(o, n); c in disk2 && c in o.disk && disk2[c] == o.disk[c] && c !in free2 && c !in own2
      {
        assert OldAt(o, n) != b;
      }
    }
  }

  // The start: the metadata was torn down, no data was moved.
  lemma MovingBytesStart(o: OldInode, downs: map<nat, nat>, size: nat, blocks: seq<Blocklist>, pos: map<nat, nat>,
                         disk: Disk, free: set<nat>, lay: Layout, g: Shape, bottom: nat)
    requires o.words >= 64 && Sound(g) && lay.dinode == o.lay.dinode
    requires Tearing(o, disk, free, blocks, pos, |blocks|, 0) && pos.Keys == o.own.Keys && DataOf(o, downs)
    ensures o.depth < MAX_META_HEIGHT && Blank(disk, lay.dinode, o.words)
    ensures BuildingOf(disk, free, OnlyDinode(lay.dinode), lay, o.words, g.depth, bottom)
    ensures MovingBytes(o, downs, size, blocks, pos, 0, 0, disk, OnlyDinode(lay.dinode), free, lay, g)
  {
    hide Listing, Tree, Reached, BuildingOf, Listed, At, OldAt, Pending, Confined, Torn, DataOf;
    TearListed(o, disk, free, blocks, pos);
    TornDown(o, disk, free, blocks, pos);
    EmptyTree(o.words, disk, free, lay, g.depth, bottom);
    EmptyCells(disk, lay, g);
    TornUses(o, disk, free, blocks, pos);
    PendingStart(o, downs, size, pos, disk, free);
  }

  lemma TornUses(o: OldInode, disk: Disk, free: set<nat>, blocks: seq<Blocklist>, pos: map<nat, nat>)
    requires Tearing(o, disk, free, blocks, pos, |blocks|, 0) && pos.Keys == o.own.Keys
    ensures o.lay.dinode in o.own
    ensures forall b | b in o.disk :: b in disk && (b !in o.own ==> disk[b] == o.disk[b])
    ensures forall b | b in free :: b in o.free || b in o.own
  {
    hide Listing, Reached, Ptr;
    assert forall b :: b in pos <==> b in o.own;
  }

  lemma PendingStart(o: OldInode, downs: map<nat, nat>, size: nat, pos: map<nat, nat>, disk: Disk, free: set<nat>)
    requires o.words >= 64 && o.lay.dinode in o.own && DataOf(o, downs)
    requires forall b | b in o.disk :: b in disk && (b !in o.own ==> disk[b] == o.disk[b])
    requires forall b | b in free :: b in o.free || b in o.own
    ensures Pending(o, pos, 0, 0, disk, OnlyDinode(o.lay.dinode), free)
    ensures Confined(o, downs, disk, OnlyDinode(o.lay.dinode), free)
  {
    hide OldAt, MovedTo;
  }

  lemma EmptyCells(disk: Disk, lay: Layout, g: Shape)
    requires Sound(g) && forall i :: Ptr(disk, lay, lay.dinode, i) == 0
    ensures forall n: nat :: At(disk, lay, g, n) == 0
  {
    forall n: nat ensures At(disk, lay, g, n) == 0 {
      EmptyWalk(disk, lay, PathOf(n, g));
      if g.depth == 0 {
        assert At(disk, lay, g, n) == Ptr(disk, lay, lay.dinode, n);
      }
    }
  }

  // The end: every byte that was to be copied is in the new file.
  lemma MovingBytesEnd(o: OldInode, downs: map<nat, nat>, size: nat, blocks: seq<Blocklist>, pos: map<nat, nat>,
                       disk: Disk, own: Owners, free: set<nat>, lay: Layout, g: Shape)
    requires o.words >= 64 && Sound(g) && MovingBytes(o, downs, size, blocks, pos, |blocks|, 0, disk, own, free, lay, g)
    ensures forall x: nat :: At(disk, lay, g, x) == if Kept(o, size, x) then OldByte(o, x) else 0
    ensures Confined(o, downs, disk, own, free)
  {
    forall x: nat ensures At(disk, lay, g, x) == if Kept(o, size, x) then OldByte(o, x) else 0 {
      var n := Quot(x, Payload(o));
      if OldAt(o, n) != 0 {
        AllMoved(o, blocks, pos, n);
      }
      hide OldAt, MovedTo, At, Quot, Rem, Kept;
      assert At(disk, lay, g, x) == if Kept(o, size, x) && MovedTo(o, pos, |blocks|, 0, Quot(x, Payload(o)))
          then OldByte(o, x) else 0;
    }
  }

  lemma AllMoved(o: OldInode, blocks: seq<Blocklist>, pos: map<nat, nat>, n: nat)
    requires OldFile(o) && Listed(o, blocks, pos) && OldAt(o, n) != 0
    ensures MovedTo(o, pos, |blocks|, 0, n)
  {
    Walked(o.disk, o.lay, o.own, o.depth, PathOf(n, OldShape(o)));
  }

  // In the list the data blocks come in the order in which they are in the file: when slot i of listed block k is
  // reached, those before position n0, its position, are moved and no others.
  lemma MovedBefore(o: OldInode, blocks: seq<Blocklist>, pos: map<nat, nat>, k: nat, i: nat, n0: nat, n: nat)
    requires o.words >= 64 && OldFile(o) && Listed(o, blocks, pos) && k < |blocks|
    requires blocks[k].height == o.depth && i < Fan(o)
    requires o.depth <= |blocks[k].mp| && n0 == Value(blocks[k].mp[..o.depth] + [i], Fan(o)) && OldAt(o, n) != 0
    ensures MovedTo(o, pos, k, i, n) <==> n < n0
  {
    hide *;
    MappedPlace(o, blocks, pos, n);
    ListedPlace(o, blocks, pos, k, i, n0);
    var b := BottomOf(o, n);
    var v, w := Value(o.own[b], Fan(o)), Value(o.own[blocks[k].block], Fan(o));
    MovedIs(o, pos, k, i, n);
    OrderIs(v, SlotOf(n, OldShape(o)), w, i, Fan(o));
    OrderIs(w, i, v, SlotOf(n, OldShape(o)), Fan(o));
    if pos[b] != k {
      ListedOrder(o, blocks, pos, b, blocks[k].block);
    }
  }

  lemma MovedIs(o: OldInode, pos: map<nat, nat>, k: nat, i: nat, n: nat)
    requires o.words >= 64
    ensures MovedTo(o, pos, k, i, n) <==>
      var b := BottomOf(o, n); b in pos && (pos[b] < k || (pos[b] == k && SlotOf(n, OldShape(o)) < i))
  {
    hide BottomOf, SlotOf;
  }

  lemma OrderIs(v: nat, d: nat, w: nat, e: nat, f: nat)
    requires d < f
    ensures v < w ==> v * f + d < w * f + e
  {
    if v < w {
      MulMonotone(v + 1, w, f);
      assert (v + 1) * f == v * f + f;
    }
  }

  // The place of a mapped position on the list.
  lemma MappedPlace(o: OldInode, blocks: seq<Blocklist>, pos: map<nat, nat>, n: nat)
    requires o.words >= 64 && OldFile(o) && Listed(o, blocks, pos) && OldAt(o, n) != 0
    ensures
      var b := BottomOf(o, n);
      && b in o.own && |o.own[b]| == o.depth && b in pos && pos[b] < |blocks| && blocks[pos[b]].block == b
      && SlotOf(n, OldShape(o)) < Fan(o) && n == Value(o.own[b], Fan(o)) * Fan(o) + SlotOf(n, OldShape(o))
  {
    hide Reached, Describes, Value, Ordered;
    var b := BottomOf(o, n);
    Walked(o.disk, o.lay, o.own, o.depth, PathOf(n, OldShape(o)));
    assert |o.disk[b]| == o.words;
    PositionIs(n, OldShape(o));
  }

  lemma ListedPlace(o: OldInode, blocks: seq<Blocklist>, pos: map<nat, nat>, k: nat, i: nat, n0: nat)
    requires o.words >= 64 && OldFile(o) && Listed(o, blocks, pos) && k < |blocks| && blocks[k].height == o.depth
    requires o.depth <= |blocks[k].mp| && n0 == Value(blocks[k].mp[..o.depth] + [i], Fan(o))
    ensures
      var c := blocks[k].block;
      && c in o.own && |o.own[c]| == o.depth && c in pos && pos[c] == k &&
         (forall b | b in pos && pos[b] == k :: b == c)
      && n0 == Value(o.own[c], Fan(o)) * Fan(o) + i
  {
    hide OldTree, Value, Ordered;
    ListedItem(o, blocks, pos, k);
    ValueSnoc(o.own[blocks[k].block], i, Fan(o));
  }

  // The order of two bottom blocks on the list.
  lemma ListedOrder(o: OldInode, blocks: seq<Blocklist>, pos: map<nat, nat>, b: nat, c: nat)
    requires o.words >= 64 && Listed(o, blocks, pos) && b in pos && c in pos && b in o.own && c in o.own
    requires |o.own[b]| == |o.own[c]| && pos[b] != pos[c]
    ensures if pos[b] < pos[c] then Value(o.own[b], Fan(o)) < Value(o.own[c], Fan(o))
      else Value(o.own[c], Fan(o)) < Value(o.own[b], Fan(o))
  {
    hide OldTree, Describes, Value;
    if pos[b] < pos[c] {
      assert Before(o.own, Fan(o), blocks[pos[b]].block, blocks[pos[c]].block);
    } else {
      assert Before(o.own, Fan(o), blocks[pos[c]].block, blocks[pos[b]].block);
    }
  }

  // A position from its path and its slot.
  lemma PositionIs(n: nat, g: Shape)
    requires Sound(g) && g.slots == g.fan
    ensures n == Value(PathOf(n, g), g.fan) * g.fan + SlotOf(n, g)
  {
    if g.depth > 0 {
      QuotRem(n, g.fan);
      ValueDigits(Quot(n, g.fan), g.fan, g.depth);
    } else {
      assert Value([], g.fan) == 0;
    }
  }

  // The data blocks before position n.
  ghost function Below(downs: map<nat, nat>, n: nat): set<nat> {
    set b | b in downs && downs[b] < n
  }

  // The paths of the new tree at which there must be a block for the bytes copied from the data blocks before n.
  ghost function NeededBelow(o: OldInode, size: nat, g: Shape, n: nat): set<seq<nat>>
    requires o.words >= 64 && Sound(g)
  {
    set x, k | 0 <= x < FirstByte(o, n) && Kept(o, size, x) && OldAt(o, Quot(x, Payload(o))) != 0 && 0 < k <= g.depth ::
      PathOf(x, g)[..k]
  }

  // ... and for those of data block n alone.
  ghost function NeededFor(o: OldInode, size: nat, g: Shape, n: nat): set<seq<nat>>
    requires o.words >= 64 && Sound(g)
  {
    set x, k | FirstByte(o, n) <= x < FirstByte(o, n) + CopiedLen(o, size, n) && 0 < k <= g.depth :: PathOf(x, g)[..k]
  }

  // Those are the paths to its first and to its last byte.
  lemma NeededForEnds(o: OldInode, size: nat, g: Shape, n: nat)
    requires o.words >= 64 && Sound(g) && Payload(o) <= g.slots
    ensures
      var base, len := FirstByte(o, n), CopiedLen(o, size, n);
      NeededFor(o, size, g, n) ==
        if len == 0 then {} else Prefixes(PathOf(base, g)) + Prefixes(PathOf(base + len - 1, g))
  {
    hide CopiedLen, FirstByte, PathOf;
    var base, len := FirstByte(o, n), CopiedLen(o, size, n);
    if len > 0 {
      var needed := NeededFor(o, size, g, n);
      var ends := Prefixes(PathOf(base, g)) + Prefixes(PathOf(base + len - 1, g));
      forall p | p in needed ensures p in ends {
        var x, k :| base <= x < base + len && 0 < k <= g.depth && p == PathOf(x, g)[..k];
        RunEnds(base, len, g, x);
      }
      forall p | p in ends ensures p in needed {
        if p in Prefixes(PathOf(base, g)) {
          var k :| 0 < k <= g.depth && p == PathOf(base, g)[..k];
        } else {
          var k :| 0 < k <= g.depth && p == PathOf(base + len - 1, g)[..k];
        }
      }
    }
  }

  lemma NeededNext(o: OldInode, size: nat, g: Shape, n: nat)
    requires o.words >= 64 && Sound(g) && OldAt(o, n) != 0
    ensures NeededBelow(o, size, g, n + 1) == NeededBelow(o, size, g, n) + NeededFor(o, size, g, n)
  {
    hide OldAt, PathOf, CopiedLen, Kept, Quot, FirstByte, Rem;
    var all, before, here := NeededBelow(o, size, g, n + 1), NeededBelow(o, size, g, n), NeededFor(o, size, g, n);
    forall p | p in all ensures p in before + here {
      var x, k :| 0 <= x < FirstByte(o, n + 1) && Kept(o, size, x) && OldAt(o, Quot(x, Payload(o))) != 0 &&
                  0 < k <= g.depth && p == PathOf(x, g)[..k];
      FirstByteIs(o, n, x);
      FirstByteIs(o, n + 1, x);
      PayloadRange(o, n, size, x);
      assert x < FirstByte(o, n) || Quot(x, Payload(o)) == n;
    }
    forall p | p in before ensures p in all {
      var x, k :| 0 <= x < FirstByte(o, n) && Kept(o, size, x) && OldAt(o, Quot(x, Payload(o))) != 0 &&
                  0 < k <= g.depth && p == PathOf(x, g)[..k];
      FirstByteIs(o, n, x);
      FirstByteIs(o, n + 1, x);
    }
    forall p | p in here ensures p in all {
      var x, k :| FirstByte(o, n) <= x < FirstByte(o, n) + CopiedLen(o, size, n) && 0 < k <= g.depth &&
                  p == PathOf(x, g)[..k];
      PayloadRange(o, n, size, x);
      FirstByteIs(o, n + 1, x);
    }
  }

  lemma FirstByteIs(o: OldInode, n: nat, x: nat)
    requires o.words >= 64
    ensures x < FirstByte(o, n) <==> Quot(x, Payload(o)) < n
  {
    QuotBelow(x, Payload(o), n);
  }

  // Only positions that are mapped matter.
  lemma NeededSame(o: OldInode, downs: map<nat, nat>, size: nat, g: Shape, a: nat, b: nat)
    requires o.words >= 64 && Sound(g) && DataOf(o, downs)
    requires forall n: nat | OldAt(o, n) != 0 :: n < a <==> n < b
    ensures Below(downs, a) == Below(downs, b) && NeededBelow(o, size, g, a) == NeededBelow(o, size, g, b)
  {
    hide OldAt, PathOf, Kept, Quot, FirstByte;
    forall x: nat ensures x < FirstByte(o, a) <==> Quot(x, Payload(o)) < a {
      FirstByteIs(o, a, x);
    }
    forall x: nat ensures x < FirstByte(o, b) <==> Quot(x, Payload(o)) < b {
      FirstByteIs(o, b, x);
    }
  }

  lemma BelowNext(o: OldInode, downs: map<nat, nat>, n: nat)
    requires o.words >= 64 && DataOf(o, downs) && OldAt(o, n) != 0
    ensures |Below(downs, n + 1)| == |Below(downs, n)| + 1
  {
    hide OldAt;
    assert Below(downs, n + 1) == Below(downs, n) + {OldAt(o, n)};
  }

  // There are blocks for the data blocks up to n: `spare` of them were free when the first was moved, and each data
  // block is freed before it is moved.
  ghost predicate Suffices(o: OldInode, downs: map<nat, nat>, size: nat, g: Shape, spare: nat, n: nat)
    requires o.words >= 64 && Sound(g)
  {
    spare + |Below(downs, n + 1)| >= |NeededBelow(o, size, g, n + 1)|
  }

  // The data blocks before `limit` are moved: the new tree has the blocks they need and no others.
  ghost predicate Balance(o: OldInode, downs: map<nat, nat>, size: nat, g: Shape, own: Owners, free: set<nat>,
                          spare: nat, limit: nat)
    requires o.words >= 64 && Sound(g)
  {
    && |own| + |free| == spare + 1 + |Below(downs, limit)|
    && (forall b | b in own :: own[b] == [] || own[b] in NeededBelow(o, size, g, limit))
    && !Missing(own, NeededBelow(o, size, g, limit))
    && forall n: nat | OldAt(o, n) != 0 && n < limit :: Suffices(o, downs, size, g, spare, n)
  }

  lemma BalanceStart(o: OldInode, downs: map<nat, nat>, size: nat, g: Shape, dinode: nat, free: set<nat>)
    requires o.words >= 64 && Sound(g)
    ensures Balance(o, downs, size, g, OnlyDinode(dinode), free, |free|, 0)
  {
    assert Below(downs, 0) == {} && NeededBelow(o, size, g, 0) == {};
  }

  // Moving data block n, or failing to.
  lemma BalanceOne(o: OldInode, downs: map<nat, nat>, size: nat, g: Shape, own: Owners, free: set<nat>, spare: nat,
                   limit: nat, n: nat,
                   disk': Disk, own': Owners, free': set<nat>, lay: Layout, words: nat, bottom: nat, ok: bool)
    requires o.words >= 64 && Sound(g) && DataOf(o, downs) && OldAt(o, n) != 0
    requires Balance(o, downs, size, g, own, free, spare, limit)
    requires forall m: nat | OldAt(o, m) != 0 :: m < limit <==> m < n
    requires BuildingOf(disk', free', own', lay, words, g.depth, bottom) && |own'| + |free'| == |own| + |free| + 1
    requires GrewWithin(own, own', NeededFor(o, size, g, n)) && (!ok ==> free' == {})
    requires ok <==> !Missing(own', NeededFor(o, size, g, n))
    ensures if ok then Balance(o, downs, size, g, own', free', spare, n + 1)
      else !Suffices(o, downs, size, g, spare, n)
  {
    hide DataOf, OldAt, BuildingOf, Below, NeededFor, NeededBelow, Missing, GrewWithin;
    var before, more, needed := NeededBelow(o, size, g, n), NeededFor(o, size, g, n), NeededBelow(o, size, g, n + 1);
    NeededSame(o, downs, size, g, limit, n);
    NeededNext(o, size, g, n);
    NoRootNeeded(o, size, g, n + 1);
    BelowNext(o, downs, n);
    StillThere(own, own', before, more);
    OwnersNeeded(own, own', before, more);
    EnoughBlocks(disk', free', lay, own', words, g.depth, bottom, needed);
    if ok {
      BothThere(own', before, more);
    } else {
      MissingMore(own', more, needed);
    }
  }

  lemma OwnersNeeded(own: Owners, own': Owners, paths: set<seq<nat>>, more: set<seq<nat>>)
    requires GrewWithin(own, own', more) && forall b | b in own :: own[b] == [] || own[b] in paths
    ensures forall b | b in own' :: own'[b] == [] || own'[b] in paths + more
  {
  }

  lemma NoRootNeeded(o: OldInode, size: nat, g: Shape, n: nat)
    requires o.words >= 64 && Sound(g)
    ensures [] !in NeededBelow(o, size, g, n)
  {
  }

  // When the data blocks before `limit` are all of them, there were enough.
  lemma BalanceEnd(o: OldInode, downs: map<nat, nat>, size: nat, blocks: seq<Blocklist>, pos: map<nat, nat>,
                   g: Shape, own: Owners, free: set<nat>, spare: nat, limit: nat)
    requires o.words >= 64 && Sound(g) && OldFile(o) && Listed(o, blocks, pos)
    requires Balance(o, downs, size, g, own, free, spare, limit) && MovedUpTo(o, pos, |blocks|, 0, limit)
    ensures forall n: nat | OldAt(o, n) != 0 :: Suffices(o, downs, size, g, spare, n)
  {
    hide OldFile, Listed, OldAt, Suffices, Missing, Below, NeededBelow;
    forall n: nat | OldAt(o, n) != 0 ensures n < limit {
      AllMoved(o, blocks, pos, n);
    }
  }

  // The data blocks in the visited slots are those before `limit`.
  ghost predicate MovedUpTo(o: OldInode, pos: map<nat, nat>, k: nat, i: nat, limit: nat)
    requires o.words >= 64
  {
    forall n: nat | OldAt(o, n) != 0 :: MovedTo(o, pos, k, i, n) <==> n < limit
  }

  lemma MovedUpToStart(o: OldInode, pos: map<nat, nat>)
    requires o.words >= 64
    ensures MovedUpTo(o, pos, 0, 0, 0)
  {
  }

  // Passing over an empty slot, or going on to the next block of the list.
  lemma MovedUpToNone(o: OldInode, blocks: seq<Blocklist>, pos: map<nat, nat>, k: nat, i: nat, limit: nat)
    requires o.words >= 64 && OldFile(o) && Listed(o, blocks, pos) && k < |blocks| && MovedUpTo(o, pos, k, i, limit)
    ensures blocks[k].height != o.depth || i == Fan(o) ==> MovedUpTo(o, pos, k + 1, 0, limit)
    ensures blocks[k].height == o.depth && i < Fan(o) && i < |blocks[k].ptrbuf| && blocks[k].ptrbuf[i] == 0 ==>
      MovedUpTo(o, pos, k, i + 1, limit)
  {
    hide OldFile, Listed, OldAt, MovedTo;
    if blocks[k].height != o.depth || i == Fan(o) {
      forall n: nat | OldAt(o, n) != 0 ensures MovedTo(o, pos, k, i, n) <==> MovedTo(o, pos, k + 1, 0, n) {
        DoneWith(o, blocks, pos, k, i, n);
      }
    } else if blocks[k].height == o.depth && i < Fan(o) && i < |blocks[k].ptrbuf| && blocks[k].ptrbuf[i] == 0 {
      var n0 := PointerAt(o, blocks, pos, k, i);
    }
  }

  // Coming to the data block in slot i of listed block k, and moving it.
  lemma MovedUpToOne(o: OldInode, blocks: seq<Blocklist>, pos: map<nat, nat>, k: nat, i: nat, limit: nat)
    returns (n0: nat)
    requires o.words >= 64 && OldFile(o) && Listed(o, blocks, pos) && k < |blocks| && MovedUpTo(o, pos, k, i, limit)
    requires blocks[k].height == o.depth && i < Fan(o) && i < |blocks[k].ptrbuf|
    ensures o.depth <= |blocks[k].mp| && n0 == Value(blocks[k].mp[..o.depth] + [i], Fan(o))
    ensures forall n: nat | OldAt(o, n) != 0 :: n < limit <==> n < n0
    ensures MovedUpTo(o, pos, k, i + 1, n0 + 1)
  {
    hide OldFile, Listed, OldAt, MovedTo, Value;
    n0 := PointerAt(o, blocks, pos, k, i);
    forall n: nat | OldAt(o, n) != 0 ensures MovedTo(o, pos, k, i, n) <==> n < n0 {
      MovedBefore(o, blocks, pos, k, i, n0, n);
    }
  }

  // Moving the data block in slot i of listed block k, or failing to.
  lemma Spent(o: OldInode, downs: map<nat, nat>, size: nat, blocks: seq<Blocklist>, pos: map<nat, nat>, k: nat, i: nat,
              g: Shape, disk: Disk, own: Owners, free: set<nat>, spare: nat, limit: nat, n0: nat,
              disk': Disk, own': Owners, free': set<nat>, lay: Layout, words: nat, bottom: nat, ok: bool)
    requires o.words >= 64 && Sound(g) && MovingBytes(o, downs, size, blocks, pos, k, i, disk, own, free, lay, g)
    requires k < |blocks| && blocks[k].height == o.depth <= |blocks[k].mp| && i < Fan(o)
    requires i < |blocks[k].ptrbuf| && blocks[k].ptrbuf[i] != 0 && OldAt(o, n0) == blocks[k].ptrbuf[i]
    requires n0 == Value(blocks[k].mp[..o.depth] + [i], Fan(o))
    requires MovedUpTo(o, pos, k, i, limit) && Balance(o, downs, size, g, own, free, spare, limit)
    requires BuildingOf(disk', free', own', lay, words, g.depth, bottom) && |own'| + |free'| == |own| + |free| + 1
    requires GrewWithin(own, own', NeededFor(o, size, g, n0)) && (!ok ==> free' == {})
    requires ok <==> !Missing(own', NeededFor(o, size, g, n0))
    ensures if ok then MovedUpTo(o, pos, k, i + 1, n0 + 1) && Balance(o, downs, size, g, own', free', spare, n0 + 1)
      else !Suffices(o, downs, size, g, spare, n0)
  {
    hide DataOf, Listed, OldFile, Rebyted, Pending, Confined, Balance, BuildingOf, GrewWithin, NeededFor, Missing,
         Suffices, OldAt, MovedUpTo, Value;
    var n1 := MovedUpToOne(o, blocks, pos, k, i, limit);
    BalanceOne(o, downs, size, g, own, free, spare, limit, n0, disk', own', free', lay, words, bottom, ok);
  }

  lemma SpentNone(o: OldInode, downs: map<nat, nat>, size: nat, blocks: seq<Blocklist>, pos: map<nat, nat>, k: nat,
                  i: nat, disk: Disk, own: Owners, free: set<nat>, lay: Layout, g: Shape, limit: nat)
    requires o.words >= 64 && Sound(g) && k < |blocks| && MovedUpTo(o, pos, k, i, limit)
    requires
      || MovingBytes(o, downs, size, blocks, pos, k, i + 1, disk, own, free, lay, g)
      || MovingBytes(o, downs, size, blocks, pos, k + 1, 0, disk, own, free, lay, g)
    ensures blocks[k].height != o.depth || i == Fan(o) ==> MovedUpTo(o, pos, k + 1, 0, limit)
    ensures blocks[k].height == o.depth && i < Fan(o) && i < |blocks[k].ptrbuf| && blocks[k].ptrbuf[i] == 0 ==>
      MovedUpTo(o, pos, k, i + 1, limit)
  {
    MovedUpToNone(o, blocks, pos, k, i, limit);
  }

  lemma SpentAll(o: OldInode, downs: map<nat, nat>, size: nat, blocks: seq<Blocklist>, pos: map<nat, nat>,
                 disk: Disk, own: Owners, free: set<nat>, lay: Layout, g: Shape, spare: nat, limit: nat)
    requires o.words >= 64 && Sound(g) && MovingBytes(o, downs, size, blocks, pos, |blocks|, 0, disk, own, free, lay, g)
    requires MovedUpTo(o, pos, |blocks|, 0, limit) && Balance(o, downs, size, g, own, free, spare, limit)
    ensures forall n: nat | OldAt(o, n) != 0 :: Suffices(o, downs, size, g, spare, n)
  {
    BalanceEnd(o, downs, size, blocks, pos, g, own, free, spare, limit);
  }

  // A file of journaled data with one data block, at position 1, on a file system without free blocks.
  ghost function Straddling(): (o: OldInode)
    ensures o.words >= 64
  {
    OldInode(map[1 := Zeros(DINODE_WORDS) + [0, 10] + Zeros(33), 10 := Zeros(512)], {},
             Layout(1, GFS1_INDIRECT_WORDS), 64, map[1 := []], 0)
  }

  lemma StraddlingIs()
    ensures
      var o := Straddling();
      && o.words == 64 && OldFile(o) && DataOf(o, map[10 := 1]) && |o.free| + |o.own| - 1 == 0
      && forall n: nat :: OldAt(o, n) == if n == 1 then 10 else 0
  {
    var o := Straddling();
    forall n: nat ensures OldAt(o, n) == if n == 1 then 10 else 0 {
      assert PathOf(n, OldShape(o)) == [];
    }
  }

  lemma StraddlingBytes(o: OldInode, x: nat)
    requires o.words == 64 && x in {488, 975}
    ensures Kept(o, 976, x) && Quot(x, Payload(o)) == 1 && x < FirstByte(o, 2)
    ensures PathOf(x, Shape(0, 512, 61, 1)) == [x / 512]
  {
    hide Quot, Rem;
    QuotRemUnique(1, 488, x - 488);
    QuotRemUnique(x / 512, 512, x % 512);
  }

  // It cannot be converted: its bytes lie in two blocks of the new file, and only one is there for them.
  lemma StraddlingFails()
    ensures
      var o, downs, g := Straddling(), map[10 := 1], Shape(0, 512, 61, 1);
      && OldFile(o) && DataOf(o, downs) && OldAt(o, 1) == 10 && LeastHeight(976, 512, 35, 61, 1)
      && |o.free| + |o.own| - 1 + |Below(downs, 2)| < |NeededBelow(o, 976, g, 2)|
  {
    hide OldAt, OldFile, DataOf, Straddling, Quot, Rem, Kept, PathOf, FirstByte;
    StraddlingIs();
    var o, downs, g := Straddling(), map[10 := 1], Shape(0, 512, 61, 1);
    PowZero(61);
    assert Below(downs, 2) == {10};
    var needed := NeededBelow(o, 976, g, 2);
    forall x | x in {488, 975} ensures [x / 512] in needed {
      StraddlingBytes(o, x);
      assert PathOf(x, g)[..1] == [x / 512];
    }
    assert [488 / 512] in needed && [975 / 512] in needed;
    SubsetSize({[0], [1]}, needed);
  }

  // Exactly the bytes below the end of the file are copied if and only if the block does not begin behind the end.
  lemma CopiedExactly(o: OldInode, size: nat, n: nat)
    requires o.words >= 64 && FirstByte(o, n) < TWO_64 && size < TWO_64
    ensures FirstByte(o, n) <= size <==>
      forall x: nat | Quot(x, Payload(o)) == n :: Kept(o, size, x) <==> x < size
  {
    hide Quot, Rem;
    var p := Payload(o);
    forall x: nat | Quot(x, p) == n ensures x == FirstByte(o, n) + Rem(x, p) && Rem(x, p) < p {
      QuotRem(x, p);
    }
    if FirstByte(o, n) > size {
      QuotRemUnique(n, p, 0);
      assert Quot(FirstByte(o, n), p) == n && Kept(o, size, FirstByte(o, n));
    }
  }

  // A file of ten bytes, with the block of the file above: all its 488 bytes are copied, from offset 488 on.
  lemma CopiedBehind()
    ensures
      var o := Straddling();
      OldFile(o) && DataOf(o, map[10 := 1]) && LeastHeight(10, 512, 35, 61, 1) &&
          FirstByte(o, 1) == CopiedLen(o, 10, 1) == 488
  {
    hide OldAt, OldFile, DataOf, Straddling;
    StraddlingIs();
    PowZero(61);
  }

  lemma ItemPointers(o: OldInode, downs: map<nat, nat>, size: nat, blocks: seq<Blocklist>, pos: map<nat, nat>, k: nat,
                     disk: Disk, own: Owners, free: set<nat>, lay: Layout, g: Shape)
    requires o.words >= 64 && Sound(g) && k < |blocks|
    requires MovingBytes(o, downs, size, blocks, pos, k, 0, disk, own, free, lay, g)
    ensures |blocks[k].ptrbuf| == Fan(o) == o.words - GFS1_INDIRECT_WORDS
  {
    ListedItem(o, blocks, pos, k);
  }
}
