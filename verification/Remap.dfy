/**
 Moving the pointers of a torn-down GFS1 tree into the GFS2 tree, one bottom block of the old tree at a time.
 */
module Remap {
  import opened MetaPaths
  import opened MetaTrees
  import opened Blocks
  import opened Heights
  import opened TearDown
  import opened Rebuild

  // Slots of a GFS1 indirect block.
  ghost function Fan(o: OldInode): nat
    requires o.words >= 64
  {
    o.words - GFS1_INDIRECT_WORDS
  }

  ghost function OldShape(o: OldInode): (g: Shape)
    requires o.words >= 64
    ensures Sound(g) && g.depth == o.depth
  {
    Shape(GFS1_INDIRECT_WORDS, Fan(o), Fan(o), o.depth)
  }

  // The old inode is a tree of height two or more.
  ghost predicate Old(o: OldInode) {
    OldTree(o.disk, o.free, o.lay, o.words, o.own, o.depth) && o.depth > 0
  }

  // What the inode mapped logical block n to.
  ghost function OldAt(o: OldInode, n: nat): nat
    requires o.words >= 64
  {
    At(o.disk, o.lay, OldShape(o), n)
  }

  // The bottom block of the old tree whose pointers cover n, or 0.
  ghost function BottomOf(o: OldInode, n: nat): nat
    requires o.words >= 64
  {
    WalkTo(o.disk, o.lay, PathOf(n, OldShape(o)))
  }

  ghost predicate Moved(o: OldInode, pos: map<nat, nat>, k: nat, n: nat)
    requires o.words >= 64
  {
    BottomOf(o, n) in pos && pos[BottomOf(o, n)] < k
  }

  // The pointers of the first k listed blocks are in the new tree, and nothing else is.
  ghost predicate Remapped(o: OldInode, pos: map<nat, nat>, k: nat, disk: Disk, lay: Layout, g: Shape)
    requires o.words >= 64 && Sound(g)
  {
    forall n: nat :: At(disk, lay, g, n) == if Moved(o, pos, k, n) then OldAt(o, n) else 0
  }

  // The dinodes of both file systems have the same size, so a tree of height one needs no conversion.
  lemma DinodeOnly(o: OldInode, lay: Layout, g: Shape)
    requires o.words >= 64 && lay.dinode == o.lay.dinode && Sound(g) && g.depth == 0
    ensures o.depth == 0 ==> forall n: nat :: At(o.disk, lay, g, n) == OldAt(o, n)
    ensures OutsideSame(o, o.disk)
  {
  }

  // Only slots inside the blocks lead anywhere.
  lemma {:induction false} WalkInside(o: OldInode, p: seq<nat>)
    requires o.words >= 64 && OldTree(o.disk, o.free, o.lay, o.words, o.own, o.depth)
    requires |p| <= o.depth && WalkTo(o.disk, o.lay, p) != 0
    ensures Proper(p, Fan(o))
    decreases |p|
  {
    if p != [] {
      var q := p[..|p| - 1];
      var y := WalkTo(o.disk, o.lay, q);
      WalkInside(o, q);
      Walked(o.disk, o.lay, o.own, o.depth, q);
      assert forall i | 0 < i < |q| :: p[i] == q[i];
    }
  }

  // Zeros at both ends of a pointer buffer are cut off.
  ghost predicate Trimmed(ptrbuf: seq<nat>, ptrnum: nat, len: nat) {
    && ptrnum + len <= |ptrbuf|
    && (forall i | 0 <= i < ptrnum || ptrnum + len <= i < |ptrbuf| :: ptrbuf[i] == 0)
    && (len > 0 ==> ptrbuf[ptrnum] != 0 && ptrbuf[ptrnum + len - 1] != 0)
  }

  // Where a bottom block of the old tree is.
  lemma BottomPath(o: OldInode, it: Blocklist)
    requires o.words >= 64 && OldTree(o.disk, o.free, o.lay, o.words, o.own, o.depth)
    requires Describes(it, o.disk, o.lay, o.own, Fan(o)) && it.height == o.depth
    ensures it.block in o.own && |o.own[it.block]| == o.depth && WalkTo(o.disk, o.lay, o.own[it.block]) == it.block
    ensures Proper(o.own[it.block], Fan(o))
  {
    hide Ptr, PtrBuf;
    assert WalkTo(o.disk, o.lay, o.own[it.block]) == it.block;
    WalkInside(o, o.own[it.block]);
  }

  // The position of slot i of the bottom block on a path.
  lemma PathPosition(path: seq<nat>, i: nat, g: Shape)
    requires Sound(g) && g.slots == g.fan && |path| == g.depth && Proper(path, g.fan) && i < g.fan
    ensures PathOf(Value(path + [i], g.fan), g) == path && SlotOf(Value(path + [i], g.fan), g) == i
  {
    hide Quot, Rem;
    ValueSnoc(path, i, g.fan);
    QuotRemUnique(Value(path, g.fan), g.fan, i);
    if path != [] {
      DigitsValue(path, g.fan);
    } else {
      assert Value(path, g.fan) == 0;
    }
  }

  // The logical position of slot ptrnum of a bottom block.
  lemma SlotPosition(o: OldInode, it: Blocklist, ptrnum: nat) returns (base: nat)
    requires o.words >= 64 && OldTree(o.disk, o.free, o.lay, o.words, o.own, o.depth)
    requires Describes(it, o.disk, o.lay, o.own, Fan(o)) && it.height == o.depth && ptrnum < Fan(o)
    ensures it.block in o.own && base == Value(o.own[it.block] + [ptrnum], Fan(o))
    ensures PathOf(base, OldShape(o)) == o.own[it.block] && SlotOf(base, OldShape(o)) == ptrnum
    ensures BottomOf(o, base) == it.block
  {
    hide OldTree, Describes, Value, PathOf, SlotOf, WalkTo, Proper;
    BottomPath(o, it);
    PathPosition(o.own[it.block], ptrnum, OldShape(o));
    base := Value(o.own[it.block] + [ptrnum], Fan(o));
  }

  // A slot of a bottom block is what the old inode mapped its position to.
  lemma SlotIsMapped(o: OldInode, it: Blocklist, n: nat)
    requires o.words >= 64 && Old(o) && Describes(it, o.disk, o.lay, o.own, Fan(o)) && it.height == o.depth
    requires BottomOf(o, n) == it.block
    ensures it.block in o.own && PathOf(n, OldShape(o)) == o.own[it.block]
    ensures SlotOf(n, OldShape(o)) < |it.ptrbuf| && OldAt(o, n) == it.ptrbuf[SlotOf(n, OldShape(o))]
  {
    hide Tree, Reached, PathOf, Quot, Rem;
    OldTreeFacts(o.disk, o.free, o.lay, o.words, o.own, o.depth);
    DescribesFacts(it, o.disk, o.lay, o.own, Fan(o));
    Walked(o.disk, o.lay, o.own, o.depth, PathOf(n, OldShape(o)));
    PathInside(n, OldShape(o), 0);
    hide OldTree, Describes, WalkTo;
  }

  // Position n before and after the pointers of one bottom block were written.
  lemma BottomMoved(o: OldInode, it: Blocklist, ptrnum: nat, len: nat, base: nat, n: nat)
    requires o.words >= 64 && Old(o) && Describes(it, o.disk, o.lay, o.own, Fan(o)) && it.height == o.depth
    requires Trimmed(it.ptrbuf, ptrnum, len) && len > 0 && base == Value(o.own[it.block] + [ptrnum], Fan(o))
    ensures BottomOf(o, n) == it.block ==>
      OldAt(o, n) == if base <= n < base + len then it.ptrbuf[ptrnum + (n - base)] else 0
    ensures BottomOf(o, n) != it.block ==> !(base <= n < base + len)
  {
    hide OldTree, OldAt, PathOf, SlotOf, Value, Describes;
    OldTreeFacts(o.disk, o.free, o.lay, o.words, o.own, o.depth);
    DescribesFacts(it, o.disk, o.lay, o.own, Fan(o));
    var b := SlotPosition(o, it, ptrnum);
    SameBottom(base, OldShape(o), len, n);
    if BottomOf(o, n) == it.block {
      SlotIsMapped(o, it, n);
    }
  }

  // The first and the last pointer of a trimmed buffer are mapped, so all of it lies below the end of the map.
  lemma EndsMapped(o: OldInode, it: Blocklist, ptrnum: nat, len: nat, base: nat)
    requires o.words >= 64 && Old(o) && Describes(it, o.disk, o.lay, o.own, Fan(o)) && it.height == o.depth
    requires Trimmed(it.ptrbuf, ptrnum, len) && len > 0 && base == Value(o.own[it.block] + [ptrnum], Fan(o))
    ensures OldAt(o, base) != 0 && OldAt(o, base + len - 1) != 0
  {
    hide OldAt, BottomOf, Old, Describes;
    BottomMoved(o, it, ptrnum, len, base, base);
    BottomMoved(o, it, ptrnum, len, base, base + len - 1);
  }

  lemma NothingMoved(o: OldInode, it: Blocklist, ptrnum: nat, n: nat)
    requires o.words >= 64 && Old(o) && Describes(it, o.disk, o.lay, o.own, Fan(o)) && it.height == o.depth
    requires Trimmed(it.ptrbuf, ptrnum, 0)
    ensures BottomOf(o, n) == it.block ==> OldAt(o, n) == 0
  {
    if BottomOf(o, n) == it.block {
      SlotIsMapped(o, it, n);
    }
  }

  // Moving the pointers of listed block k.
  lemma RemappedBottom(o: OldInode, blocks: seq<Blocklist>, pos: map<nat, nat>, k: nat, ptrnum: nat, len: nat,
                       disk: Disk, disk': Disk, lay: Layout, g: Shape, base: nat)
    requires o.words >= 64 && Old(o) && Sound(g) && Numbered(blocks, pos) && k < |blocks|
    requires Describes(blocks[k], o.disk, o.lay, o.own, Fan(o))
    requires blocks[k].height == o.depth && ptrnum + len <= |blocks[k].ptrbuf| && Trimmed(blocks[k].ptrbuf, ptrnum, len)
    requires base == Value(o.own[blocks[k].block] + [ptrnum], Fan(o))
    requires Remapped(o, pos, k, disk, lay, g)
    requires if len > 0 then Wrote(disk, disk', lay, g, base, blocks[k].ptrbuf[ptrnum..ptrnum + len]) else disk' == disk
    ensures Remapped(o, pos, k + 1, disk', lay, g)
  {
    hide OldAt, BottomOf, Old, Describes, At, Trimmed, Value, PathOf, SlotOf;
    var it := blocks[k];
    forall n: nat ensures At(disk', lay, g, n) == if Moved(o, pos, k + 1, n) then OldAt(o, n) else 0 {
      assert At(disk, lay, g, n) == if Moved(o, pos, k, n) then OldAt(o, n) else 0;
      if len > 0 {
        BottomMoved(o, it, ptrnum, len, base, n);
      } else {
        NothingMoved(o, it, ptrnum, n);
      }
      assert Moved(o, pos, k + 1, n) <==> Moved(o, pos, k, n) || BottomOf(o, n) == it.block;
    }
  }

  // A listed block above the bottom has no file data.
  lemma RemappedAbove(o: OldInode, blocks: seq<Blocklist>, pos: map<nat, nat>, k: nat, disk: Disk, lay: Layout,
                      g: Shape)
    requires o.words >= 64 && Old(o) && Sound(g) && Numbered(blocks, pos) && k < |blocks|
    requires Describes(blocks[k], o.disk, o.lay, o.own, Fan(o))
    requires blocks[k].height != o.depth && Remapped(o, pos, k, disk, lay, g)
    ensures Remapped(o, pos, k + 1, disk, lay, g)
  {
    forall n: nat ensures Moved(o, pos, k + 1, n) <==> Moved(o, pos, k, n) {
      if BottomOf(o, n) == blocks[k].block {
        Walked(o.disk, o.lay, o.own, o.depth, PathOf(n, OldShape(o)));
      }
    }
  }

  // When every block of the old tree was listed and moved, both trees map every position to the same block.
  lemma RemappedAll(o: OldInode, blocks: seq<Blocklist>, pos: map<nat, nat>, disk: Disk, lay: Layout, g: Shape)
    requires Old(o) && Sound(g) && Numbered(blocks, pos) && pos.Keys == o.own.Keys
    requires Remapped(o, pos, |blocks|, disk, lay, g)
    ensures forall n: nat :: At(disk, lay, g, n) == OldAt(o, n)
  {
    forall n: nat ensures At(disk, lay, g, n) == OldAt(o, n) {
      if BottomOf(o, n) != 0 {
        Walked(o.disk, o.lay, o.own, o.depth, PathOf(n, OldShape(o)));
      }
    }
  }

  // The wiped dinode is the root of an empty GFS2 tree.
  lemma {:induction false} EmptyWalk(disk: Disk, lay: Layout, p: seq<nat>)
    requires forall i :: Ptr(disk, lay, lay.dinode, i) == 0
    ensures p != [] ==> WalkTo(disk, lay, p) == 0
    decreases |p|
  {
    if |p| > 1 {
      EmptyWalk(disk, lay, p[..|p| - 1]);
    }
  }

  lemma EmptyTree(words: nat, disk: Disk, free: set<nat>, lay: Layout, depth: nat, bottom: nat)
    requires lay.dinode != 0 && lay.dinode !in free && Blank(disk, lay.dinode, words)
    requires forall b | b in free :: b != 0 && b in disk
    ensures forall i :: Ptr(disk, lay, lay.dinode, i) == 0
    ensures BuildingOf(disk, free, OnlyDinode(lay.dinode), lay, words, depth, bottom)
  {
  }

  // What the tear-down leaves behind.
  lemma TornDown(o: OldInode, disk: Disk, free: set<nat>, blocks: seq<Blocklist>, pos: map<nat, nat>)
    requires Tearing(o, disk, free, blocks, pos, |blocks|, 0)
    ensures o.lay.dinode != 0 && o.lay.dinode !in free && Blank(disk, o.lay.dinode, o.words)
    ensures forall b | b in free :: b != 0 && b in disk
  {
    hide Ordered, Reached, Describes, Visited, FoundFrom;
    TearSize(o, disk, free, blocks, pos, |blocks|, 0);
    hide Listing;
  }

  lemma RemappedNone(o: OldInode, pos: map<nat, nat>, disk: Disk, lay: Layout, g: Shape)
    requires o.words >= 64 && Sound(g) && forall i :: Ptr(disk, lay, lay.dinode, i) == 0
    ensures Remapped(o, pos, 0, disk, lay, g)
  {
    hide OldAt, Digits, Quot, Rem;
    forall n: nat ensures At(disk, lay, g, n) == 0 {
      EmptyWalk(disk, lay, PathOf(n, g));
      if g.depth == 0 {
        assert At(disk, lay, g, n) == Ptr(disk, lay, lay.dinode, n);
      }
    }
  }

  // Only blocks of the old tree and free blocks were touched since the tear-down began.
  ghost predicate OutsideSame(o: OldInode, disk: Disk) {
    && (forall b | b in o.disk :: b in disk)
    && forall b | b in o.disk && b !in o.own && b !in o.free :: disk[b] == o.disk[b]
  }

  // The blocks the rebuilding may use.
  ghost predicate Within(o: OldInode, own: Owners, free: set<nat>) {
    && (forall b | b in own :: b in o.own || b in o.free)
    && forall b | b in free :: b in o.own || b in o.free
  }

  lemma TornOutside(o: OldInode, disk: Disk, free: set<nat>, blocks: seq<Blocklist>, pos: map<nat, nat>)
    requires Tearing(o, disk, free, blocks, pos, |blocks|, 0)
    ensures OutsideSame(o, disk) && Within(o, OnlyDinode(o.lay.dinode), free)
  {
    hide Listing, Reached, Ptr, Ordered;
    TearSize(o, disk, free, blocks, pos, |blocks|, 0);
  }

  lemma ProgressOutside(o: OldInode, disk: Disk, own: Owners, free: set<nat>, disk': Disk, own': Owners,
                        free': set<nat>)
    requires OutsideSame(o, disk) && Within(o, own, free)
    requires OthersSame(disk, disk', own, free) && OwnersGrew(own, own', free) && free' <= free
    ensures OutsideSame(o, disk') && Within(o, own', free')
  {
  }

  // The whole state between two blocks of the list: the first k are moved.
  ghost predicate Moving(o: OldInode, blocks: seq<Blocklist>, pos: map<nat, nat>, k: nat,
                         disk: Disk, own: Owners, free: set<nat>, lay: Layout, g: Shape)
    requires o.words >= 64 && Sound(g)
  {
    && Old(o) && Listed(o, blocks, pos) && Remapped(o, pos, k, disk, lay, g)
    && OutsideSame(o, disk) && Within(o, own, free)
  }

  lemma MovingStart(o: OldInode, blocks: seq<Blocklist>, pos: map<nat, nat>, disk: Disk, free: set<nat>, lay: Layout,
                    g: Shape,
                    bottom: nat)
    requires o.words >= 64 && o.depth > 0 && Sound(g) && lay.dinode == o.lay.dinode
    requires Tearing(o, disk, free, blocks, pos, |blocks|, 0) && pos.Keys == o.own.Keys
    ensures o.depth < MAX_META_HEIGHT && Blank(disk, lay.dinode, o.words)
    ensures BuildingOf(disk, free, OnlyDinode(lay.dinode), lay, o.words, g.depth, bottom)
    ensures Moving(o, blocks, pos, 0, disk, OnlyDinode(lay.dinode), free, lay, g)
  {
    hide Listing, Torn, Tree, Reached, BuildingOf, Remapped, OutsideSame, Within, Listed;
    TearListed(o, disk, free, blocks, pos);
    TornDown(o, disk, free, blocks, pos);
    TornOutside(o, disk, free, blocks, pos);
    EmptyTree(o.words, disk, free, lay, g.depth, bottom);
    RemappedNone(o, pos, disk, lay, g);
  }

  // The paths of the new tree at which there must be a block: those on the way to a mapped position.
  ghost function NeededPaths(o: OldInode, g: Shape, top: nat): set<seq<nat>>
    requires o.words >= 64 && Sound(g)
  {
    set n, k | 0 <= n < Room(g, top) && 0 < k <= g.depth && OldAt(o, n) != 0 :: PathOf(n, g)[..k]
  }

  // There are blocks at such paths only.
  ghost predicate OnlyNeeded(o: OldInode, own: Owners, g: Shape, top: nat)
    requires o.words >= 64 && Sound(g)
  {
    forall b | b in own :: own[b] == [] || own[b] in NeededPaths(o, g, top)
  }

  lemma NeededEnds(o: OldInode, g: Shape, top: nat, n: nat)
    requires o.words >= 64 && Sound(g) && n < Room(g, top) && OldAt(o, n) != 0
    ensures Prefixes(PathOf(n, g)) <= NeededPaths(o, g, top)
  {
    forall p | p in Prefixes(PathOf(n, g)) ensures p in NeededPaths(o, g, top) {
      var k :| 0 < k <= g.depth && p == PathOf(n, g)[..k];
    }
  }

  lemma NeededIs(o: OldInode, own: Owners, g: Shape, top: nat)
    requires o.words >= 64 && Sound(g) && OnlyNeeded(o, own, g, top)
    ensures [] !in NeededPaths(o, g, top) && forall b | b in own :: own[b] == [] || own[b] in NeededPaths(o, g, top)
  {
  }

  lemma OnlyNeededGrew(o: OldInode, own: Owners, own': Owners, g: Shape, top: nat, paths: set<seq<nat>>)
    requires o.words >= 64 && Sound(g) && OnlyNeeded(o, own, g, top)
    requires GrewWithin(own, own', paths) && paths <= NeededPaths(o, g, top)
    ensures OnlyNeeded(o, own', g, top)
  {
  }

  // When the new tree maps what the old one did, there is a block at each of these paths.
  lemma NeededThere(o: OldInode, disk: Disk, lay: Layout, own: Owners, g: Shape, top: nat)
    requires o.words >= 64 && Sound(g) && Tree(disk, lay, own, g.depth)
    requires forall n: nat :: At(disk, lay, g, n) == OldAt(o, n)
    ensures !Missing(own, NeededPaths(o, g, top))
  {
    forall p | p in NeededPaths(o, g, top) ensures exists b :: b in own && own[b] == p {
      var n: nat, k: nat :| n < Room(g, top) && 0 < k <= g.depth && OldAt(o, n) != 0 && p == PathOf(n, g)[..k];
      assert At(disk, lay, g, n) != 0;
      WalkPrefix(disk, lay, PathOf(n, g), k);
      Walked(disk, lay, own, g.depth, p);
      assert WalkTo(disk, lay, p) in own;
    }
  }

  // Counting the blocks of a tree by their paths.
  lemma {:induction false} OwnersCount(own: Owners, paths: set<seq<nat>>)
    requires forall b, c | b in own && c in own && own[b] == own[c] :: b == c
    requires forall b | b in own :: own[b] in paths
    ensures |own| <= |paths|
    ensures (forall p | p in paths :: exists b :: b in own && own[b] == p) ==> |own| == |paths|
    ensures (exists p | p in paths :: forall b | b in own :: own[b] != p) ==> |own| < |paths|
    decreases |own|
  {
    if own == map[] {
      if p :| p in paths {
        assert {p} <= paths;
        SubsetSize({p}, paths);
      }
    } else {
      var c :| c in own;
      var own', paths' := own - {c}, paths - {own[c]};
      assert |own'| == |own| - 1 by { assert own'.Keys == own.Keys - {c}; assert |own| == |own.Keys| &&
                                     |own'| == |own'.Keys|; }
      OwnersCount(own', paths');
      forall p | p in paths && forall b | b in own :: own[b] != p ensures |own| < |paths| {
        assert p in paths' && forall b | b in own' :: own'[b] != p;
      }
      if forall p | p in paths :: exists b :: b in own && own[b] == p {
        forall p | p in paths' ensures exists b :: b in own' && own'[b] == p {
          var b :| b in own && own[b] == p;
          assert b in own';
        }
      }
    }
  }

  // Whether there are enough blocks: a tree that has blocks at these paths only has at most one block more, the
  // dinode, and exactly that many when none of them is missing.
  lemma EnoughBlocks(disk: Disk, free: set<nat>, lay: Layout, own: Owners, words: nat, depth: nat, bottom: nat,
                     needed: set<seq<nat>>)
    requires BuildingOf(disk, free, own, lay, words, depth, bottom) && [] !in needed
    requires forall b | b in own :: own[b] == [] || own[b] in needed
    ensures if Missing(own, needed) then |own| <= |needed| else |own| == |needed| + 1
  {
    forall b, c | b in own && c in own && own[b] == own[c] ensures b == c {
      assert WalkTo(disk, lay, own[b]) == b && WalkTo(disk, lay, own[c]) == c;
    }
    OwnersCount(own, needed + {[]});
    if Missing(own, needed) {
      var p :| p in needed && forall b | b in own :: own[b] != p;
      assert p in needed + {[]};
    } else {
      forall p | p in needed + {[]} ensures exists b :: b in own && own[b] == p {
        if p == [] {
          assert own[lay.dinode] == [];
        }
      }
    }
  }

  // No logical block the old inode maps lies beyond the capacity of the new tree.
  ghost predicate Fitting(o: OldInode, cap: nat)
    requires o.words >= 64
  {
    forall n: nat | OldAt(o, n) != 0 :: n < cap
  }

  // That is so exactly if the path of every mapped position stays inside the blocks of the new tree ...
  lemma FittingIsInside(o: OldInode, g: Shape, top: nat)
    requires o.words >= 64 && Sound(g)
    ensures Fitting(o, Room(g, top)) <==> forall n: nat | OldAt(o, n) != 0 :: Inside(n, g, top)
  {
    forall n: nat ensures Inside(n, g, top) <==> n < Room(g, top) {
      PathInside(n, g, top);
    }
  }

  // ... and only then can any tree of that shape map what the old inode did.
  lemma OnlyFittingMaps(o: OldInode, disk: Disk, lay: Layout, g: Shape, top: nat)
    requires o.words >= 64 && Sound(g) && (lay.dinode in disk ==> |disk[lay.dinode]| == DINODE_WORDS + top)
    requires forall n: nat :: At(disk, lay, g, n) == OldAt(o, n)
    ensures Fitting(o, Room(g, top))
  {
    forall n: nat | OldAt(o, n) != 0 ensures n < Room(g, top) {
      MappedInside(disk, lay, g, top, n);
    }
  }

  // An inode of ten bytes that maps logical block 53. Height 1 can map ten bytes, but not block 53: its path is
  // outside the dinode, which has 35 slots.
  lemma MappedPastTheEnd() returns (o: OldInode)
    ensures OldTree(o.disk, o.free, o.lay, o.words, o.own, o.depth) && o.words == 64 && o.depth == 1
    ensures OldAt(o, 53) == 9
    ensures LeastHeight(10, 512, 35, 61, 1)
    ensures
      var g := Shape(META_HEADER_WORDS, 61, 61, 0);
      !Inside(53, g, 35) && !Fitting(o, Room(g, 35))
  {
    var dinode := Zeros(DINODE_WORDS) + [0, 7] + Zeros(33);
    var indirect := Zeros(GFS1_INDIRECT_WORDS) + [9] + Zeros(52);
    o := OldInode(map[1 := dinode, 7 := indirect], {}, Layout(1, GFS1_INDIRECT_WORDS), 64, map[1 := [], 7 := [1]], 1);
    assert forall i :: Ptr(o.disk, o.lay, 1, i) == if i == 1 then 7 else 0;
    assert WalkTo(o.disk, o.lay, [1]) == Ptr(o.disk, o.lay, WalkTo(o.disk, o.lay, []), 1) == 7;
    QuotRemUnique(1, 53, 0);
    assert PathOf(53, OldShape(o)) == [1] && SlotOf(53, OldShape(o)) == 0;
    PowZero(61);
  }

  // A sparse inode: one block of pointers, the first and the last of which are set, and no free blocks.
  ghost function Sparse(): (o: OldInode)
    ensures o.words == 64 && o.depth == 1 && |o.free| + |o.own| - 1 == 1
  {
    OldInode(map[1 := Zeros(DINODE_WORDS) + [0, 7] + Zeros(33),
                 7 := Zeros(GFS1_INDIRECT_WORDS) + [9] + Zeros(51) + [10]],
             {}, Layout(1, GFS1_INDIRECT_WORDS), 64, map[1 := [], 7 := [1]], 1)
  }

  lemma SparseIs()
    ensures var o := Sparse(); OldTree(o.disk, o.free, o.lay, o.words, o.own, o.depth)
    ensures WalkTo(Sparse().disk, Sparse().lay, [1]) == 7
  {
    var o := Sparse();
    assert forall i :: Ptr(o.disk, o.lay, 1, i) == if i == 1 then 7 else 0;
    assert WalkTo(o.disk, o.lay, [1]) == Ptr(o.disk, o.lay, WalkTo(o.disk, o.lay, []), 1) == 7;
  }

  lemma SparseMaps()
    ensures forall n | n in {53, 105} :: OldAt(Sparse(), n) != 0
  {
    var o := Sparse();
    SparseIs();
    forall n | n in {53, 105} ensures OldAt(o, n) != 0 {
      hide Quot, Rem;
      QuotRemUnique(1, 53, n - 53);
      assert PathOf(n, OldShape(o)) == [1] && SlotOf(n, OldShape(o)) == n - 53;
    }
  }

  // It cannot be converted: the two pointers belong into two blocks of the new tree, and only one is there for them.
  lemma SparseFails()
    ensures
      var o, g := Sparse(), Shape(META_HEADER_WORDS, 61, 61, 1);
      && OldTree(o.disk, o.free, o.lay, o.words, o.own, o.depth) && LeastHeight(54272, 512, 35, 61, 2)
      && |o.free| + |o.own| - 1 < |NeededPaths(o, g, 35)|
  {
    hide OldAt, OldTree, Sparse, Quot, Rem, PathOf;
    SparseIs();
    SparseMaps();
    var o, g := Sparse(), Shape(META_HEADER_WORDS, 61, 61, 1);
    PowZero(61);
    assert Pow(61, 1) == 61;
    var needed := NeededPaths(o, g, 35);
    forall n: nat | n in {53, 105} ensures [n / 61] in needed {
      SparsePath(n);
      assert PathOf(n, g)[..1] == [n / 61];
    }
    assert [53 / 61] in needed && [105 / 61] in needed;
    SubsetSize({[0], [1]}, needed);
  }

  lemma SparsePath(n: nat)
    ensures PathOf(n, Shape(META_HEADER_WORDS, 61, 61, 1)) == [n / 61]
  {
    DivIsQuot(n, 61);
  }

  // What the loop needs to know of the block it comes to.
  lemma MovingItem(o: OldInode, blocks: seq<Blocklist>, pos: map<nat, nat>, k: nat,
                   disk: Disk, own: Owners, free: set<nat>, lay: Layout, g: Shape, cap: nat)
    requires o.words >= 64 && Sound(g) && k < |blocks|
    requires Moving(o, blocks, pos, k, disk, own, free, lay, g) && Fitting(o, cap)
    ensures |blocks[k].mp| == MAX_META_HEIGHT && |blocks[k].ptrbuf| == Fan(o)
    ensures blocks[k].height == o.depth ==> forall i: nat, l: nat | Trimmed(blocks[k].ptrbuf, i, l) && l > 0 ::
      var base := Value(blocks[k].mp[..o.depth] + [i], Fan(o));
      base + l <= cap && OldAt(o, base) != 0 && OldAt(o, base + l - 1) != 0
  {
    hide OldAt, Remapped, OutsideSame, Within, Value, Trimmed, OldTree, Numbered;
    ListedItem(o, blocks, pos, k);
    var it := blocks[k];
    if it.height == o.depth {
      forall i: nat, l: nat | Trimmed(it.ptrbuf, i, l) && l > 0
        ensures
          var base := Value(it.mp[..o.depth] + [i], Fan(o));
          base + l <= cap && OldAt(o, base) != 0 && OldAt(o, base + l - 1) != 0
      {
        EndsMapped(o, it, i, l, Value(it.mp[..o.depth] + [i], Fan(o)));
      }
    }
  }

  lemma MovingBottom(o: OldInode, blocks: seq<Blocklist>, pos: map<nat, nat>, k: nat,
                     disk: Disk, own: Owners, free: set<nat>, taken: int, disk': Disk, own': Owners, free': set<nat>,
                         taken': int,
                     lay: Layout, g: Shape, ptrnum: nat, len: nat, base: nat)
    requires o.words >= 64 && Sound(g) && k < |blocks|
    requires Moving(o, blocks, pos, k, disk, own, free, lay, g)
    requires blocks[k].height == o.depth <= |blocks[k].mp| && Trimmed(blocks[k].ptrbuf, ptrnum, len)
    requires ptrnum + len <= |blocks[k].ptrbuf|
    requires base == Value(blocks[k].mp[..o.depth] + [ptrnum], Fan(o))
    requires Progress(disk, own, free, taken, disk', own', free', taken', lay, g, base,
                      blocks[k].ptrbuf[ptrnum..ptrnum + len])
    requires len == 0 ==> disk' == disk
    ensures Moving(o, blocks, pos, k + 1, disk', own', free', lay, g)
  {
    ListedItem(o, blocks, pos, k);
    hide Remapped, OutsideSame, Within, Old, OthersSame, OwnersGrew, Wrote, Numbered, Fan, Value, OldTree, At;
    RemappedBottom(o, blocks, pos, k, ptrnum, len, disk, disk', lay, g, base);
    ProgressOutside(o, disk, own, free, disk', own', free');
  }

  lemma MovingAbove(o: OldInode, blocks: seq<Blocklist>, pos: map<nat, nat>, k: nat,
                    disk: Disk, own: Owners, free: set<nat>, lay: Layout, g: Shape)
    requires o.words >= 64 && Sound(g) && k < |blocks| && blocks[k].height != o.depth
    requires Moving(o, blocks, pos, k, disk, own, free, lay, g)
    ensures Moving(o, blocks, pos, k + 1, disk, own, free, lay, g)
  {
    ListedItem(o, blocks, pos, k);
    RemappedAbove(o, blocks, pos, k, disk, lay, g);
  }

  lemma MovingEnd(o: OldInode, blocks: seq<Blocklist>, pos: map<nat, nat>,
                  disk: Disk, own: Owners, free: set<nat>, lay: Layout, g: Shape)
    requires o.words >= 64 && Sound(g) && Moving(o, blocks, pos, |blocks|, disk, own, free, lay, g)
    ensures forall n: nat :: At(disk, lay, g, n) == OldAt(o, n)
    ensures OutsideSame(o, disk)
  {
    RemappedAll(o, blocks, pos, disk, lay, g);
  }
}
