/**
 Rebuilding the metadata tree of an inode for GFS2: what growing the tree and writing its pointers change.
 */
module Rebuild {
  import opened MetaPaths
  import opened MetaTrees
  import opened Blocks
  import opened Heights

  // No cell of the bottom level differs between the two disks.
  ghost predicate SameCells(disk: Disk, disk': Disk, lay: Layout, header: nat, depth: nat) {
    forall p, o | |p| == depth :: Cell(disk', lay, header, p, o) == Cell(disk, lay, header, p, o)
  }

  // Blocks outside the tree and not free keep their contents.
  ghost predicate OthersSame(disk: Disk, disk': Disk, own: Owners, free: set<nat>) {
    && (forall b | b in disk :: b in disk')
    && forall b | b in disk && b !in own && b !in free :: disk'[b] == disk[b]
  }

  // Only free blocks join the tree.
  ghost predicate OwnersGrew(own: Owners, own': Owners, free: set<nat>) {
    && (forall b | b in own :: b in own' && own'[b] == own[b])
    && forall b | b in own' :: b in own || b in free
  }

  lemma LevelsJoined(disk: Disk, own: Owners, free: set<nat>, disk1: Disk, own1: Owners, free1: set<nat>, disk2: Disk,
                     own2: Owners,
                     lay: Layout, header: nat, depth: nat)
    requires SameCells(disk, disk1, lay, header, depth) && SameCells(disk1, disk2, lay, header, depth)
    requires OthersSame(disk, disk1, own, free) && OthersSame(disk1, disk2, own1, free1) && free1 <= free
    requires OwnersGrew(own, own1, free) && OwnersGrew(own1, own2, free1)
    ensures SameCells(disk, disk2, lay, header, depth) && OthersSame(disk, disk2, own, free)
    ensures OwnersGrew(own, own2, free)
  {
    hide Cell;
  }

  lemma LevelsNone(disk: Disk, own: Owners, free: set<nat>, lay: Layout, header: nat, depth: nat, paths: set<seq<nat>>)
    ensures SameCells(disk, disk, lay, header, depth) && OthersSame(disk, disk, own, free) && OwnersGrew(own, own, free)
    ensures GrewWithin(own, own, paths)
  {
  }

  ghost predicate BuildingOf(disk: Disk, free: set<nat>, own: Owners, lay: Layout, words: nat, depth: nat,
                             bottom: nat) {
    && Tree(disk, lay, own, depth) && Reached(disk, lay, own)
    && (forall b | b in free :: b != 0 && b in disk && b !in own)
    && forall b | b in own && b in disk :: |disk[b]| == if |own[b]| == depth && b != lay.dinode then bottom else words
  }

  lemma BuiltTree(disk: Disk, free: set<nat>, own: Owners, lay: Layout, words: nat, depth: nat, bottom: nat)
    requires BuildingOf(disk, free, own, lay, words, depth, bottom)
    ensures Tree(disk, lay, own, depth)
  {
  }

  lemma LevelFacts(disk: Disk, free: set<nat>, own: Owners, lay: Layout, words: nat, depth: nat, bottom: nat)
    requires BuildingOf(disk, free, own, lay, words, depth, bottom)
    ensures lay.dinode in own && own[lay.dinode] == [] && lay.dinode != 0 && 0 !in free
    ensures forall b | b in own :: b in disk && (b == lay.dinode <==> own[b] == [])
    ensures forall b | b in own && (|own[b]| < depth || b == lay.dinode) :: |disk[b]| == words
    ensures forall b | b in own && |own[b]| == depth && b != lay.dinode :: |disk[b]| == bottom
  {
  }

  // Writing a header over a block: no pointer changes, nor any cell behind the header.
  lemma StampedLevel(disk0: Disk, free0: set<nat>, own0: Owners, disk: Disk, free: set<nat>, own: Owners, lay: Layout,
                     words: nat, depth: nat, bottom: nat, b: nat, header: nat)
    requires lay.header == META_HEADER_WORDS && BuildingOf(disk, free, own, lay, words, depth, bottom)
    requires words >= META_HEADER_WORDS
    requires b in own && b != lay.dinode && (|own[b]| < depth || (header == META_HEADER_WORDS && bottom == words))
    requires SameCells(disk0, disk, lay, header, depth) && OthersSame(disk0, disk, own0, free0)
    requires (b in own0 || b in free0)
    ensures b in disk && |disk[b]| >= META_HEADER_WORDS
    ensures
      var disk' := disk[b := Stamped(disk[b])];
      && BuildingOf(disk', free, own, lay, words, depth, bottom) && WalkTo(disk', lay, own[b]) == b
      && SameCells(disk0, disk', lay, header, depth) && OthersSame(disk0, disk', own0, free0)
  {
    var disk' := disk[b := Stamped(disk[b])];
    assert forall c, i :: Ptr(disk', lay, c, i) == Ptr(disk, lay, c, i);
    forall c | c in own ensures WalkTo(disk', lay, own[c]) == c {
      WalkFrame(disk, disk', lay, own, depth, depth, own[c]);
    }
    forall p, o | |p| == depth ensures Cell(disk', lay, header, p, o) == Cell(disk, lay, header, p, o) {
      CellFrame(disk, disk', lay, own, depth, header, p, o);
    }
  }

  // A slot that is already filled leads to a block of the tree.
  lemma ExistingLevel(disk: Disk, free: set<nat>, own: Owners, lay: Layout, words: nat, depth: nat, bottom: nat,
                      b: nat, i: nat, header: nat)
    requires BuildingOf(disk, free, own, lay, words, depth, bottom)
    requires b in own && |own[b]| < depth && HeaderOf(lay, b) + i < words
    ensures b in disk && |disk[b]| == words
    ensures
      var c := disk[b][HeaderOf(lay, b) + i];
      c != 0 ==> c in own && own[c] == own[b] + [i] && WalkTo(disk, lay, own[c]) == c && c != lay.dinode
    ensures SameCells(disk, disk, lay, header, depth) && OthersSame(disk, disk, own, free) && OwnersGrew(own, own, free)
  {
    assert disk[b][HeaderOf(lay, b) + i] == Ptr(disk, lay, b, i);
  }

  // An empty slot: there is no block at the path through it.
  lemma NoBlockThere(disk: Disk, lay: Layout, own: Owners, depth: nat, b: nat, i: nat)
    requires Tree(disk, lay, own, depth) && Reached(disk, lay, own) && b in own && |own[b]| < depth
    requires Ptr(disk, lay, b, i) == 0
    ensures forall c | c in own :: own[c] != own[b] + [i]
  {
    assert (own[b] + [i])[..|own[b]|] == own[b];
  }

  lemma EmptySlot(disk: Disk, free: set<nat>, own: Owners, lay: Layout, words: nat, depth: nat, bottom: nat, b: nat,
                  i: nat)
    requires BuildingOf(disk, free, own, lay, words, depth, bottom)
    requires b in own && |own[b]| < depth && HeaderOf(lay, b) + i < words
    ensures b in disk && |disk[b]| == words
    ensures disk[b][HeaderOf(lay, b) + i] == 0 ==> forall c | c in own :: own[c] != own[b] + [i]
  {
    if disk[b][HeaderOf(lay, b) + i] == 0 {
      NoBlockThere(disk, lay, own, depth, b, i);
    }
  }

  // A fresh block filled with zeros hangs in the empty slot i of block b.
  lemma FreshLinked(disk: Disk, lay: Layout, own: Owners, depth: nat, b: nat, i: nat, z: nat, n: nat)
    requires Tree(disk, lay, own, depth) && b in own && b in disk && |own[b]| < depth && z != 0 && z !in own
    requires HeaderOf(lay, b) + i < |disk[b]| && disk[b][HeaderOf(lay, b) + i] == 0
    ensures Linked(disk, disk[b := Put(disk[b], HeaderOf(lay, b) + i, z)][z := Zeros(n)], lay, own, depth, b, i, z)
    ensures z != lay.dinode
  {
  }

  lemma FreshTree(disk: Disk, lay: Layout, own: Owners, depth: nat, b: nat, i: nat, z: nat, n: nat, header: nat)
    requires Tree(disk, lay, own, depth) && Reached(disk, lay, own)
    requires b in own && b in disk && |own[b]| < depth && z != 0 && z !in own
    requires HeaderOf(lay, b) + i < |disk[b]| && disk[b][HeaderOf(lay, b) + i] == 0
    ensures
      var disk' := disk[b := Put(disk[b], HeaderOf(lay, b) + i, z)][z := Zeros(n)];
      var own' := own[z := own[b] + [i]];
      && Tree(disk', lay, own', depth) && Reached(disk', lay, own')
      && WalkTo(disk', lay, own[b] + [i]) == z
      && forall p, o | |p| == depth :: Cell(disk', lay, header, p, o) == Cell(disk, lay, header, p, o)
  {
    var disk' := disk[b := Put(disk[b], HeaderOf(lay, b) + i, z)][z := Zeros(n)];
    var own' := own[z := own[b] + [i]];
    FreshLinked(disk, lay, own, depth, b, i, z, n);
    assert forall c | c in own :: |own[c]| <= depth && c in disk;
    hide Linked, Tree, Ptr, Cell, WalkTo, HeaderOf;
    LinkedTree(disk, disk', lay, own, depth, b, i, z);
    forall c | c in own' ensures WalkTo(disk', lay, own'[c]) == c {
      LinkedWalk(disk, disk', lay, own, depth, b, i, z, own'[c]);
    }
    forall p, o | |p| == depth ensures Cell(disk', lay, header, p, o) == Cell(disk, lay, header, p, o) {
      LinkedCell(disk, disk', lay, own, depth, b, i, z, header, p, o);
    }
  }

  // The same, with everything that holds while building.
  lemma FreshLevel(disk: Disk, free: set<nat>, own: Owners, lay: Layout, words: nat, depth: nat, bottom: nat,
                   b: nat, i: nat, z: nat, n: nat, header: nat)
    requires BuildingOf(disk, free, own, lay, words, depth, bottom) && z in free
    requires b in own && |own[b]| < depth && HeaderOf(lay, b) + i < words
    requires n == if |own[b]| == depth - 1 then bottom else words
    ensures b in disk && |disk[b]| == words
    ensures disk[b][HeaderOf(lay, b) + i] == 0 ==>
      var disk' := disk[b := Put(disk[b], HeaderOf(lay, b) + i, z)][z := Zeros(n)];
      var own' := own[z := own[b] + [i]];
      && BuildingOf(disk', free - {z}, own', lay, words, depth, bottom) && SameCells(disk, disk', lay, header, depth)
      && WalkTo(disk', lay, own'[z]) == z && OthersSame(disk, disk', own, free) && OwnersGrew(own, own', free) &&
         z != lay.dinode
  {
    if disk[b][HeaderOf(lay, b) + i] == 0 {
      FreshTree(disk, lay, own, depth, b, i, z, n, header);
    }
  }

  // One level of the loop that builds the tree down to a bottom block: block z, new or not, in slot i of block b,
  // gets a header unless it is a block of journaled data.
  lemma LevelBuilt(disk: Disk, free: set<nat>, own: Owners, lay: Layout, words: nat, depth: nat, bottom: nat,
                   b: nat, i: nat, isNew: bool, z: nat, last: bool, header: nat)
    requires lay.header == META_HEADER_WORDS && words >= META_HEADER_WORDS
    requires BuildingOf(disk, free, own, lay, words, depth, bottom) && Headed(disk, own, depth, bottom != words)
    requires b in own && |own[b]| < depth && HeaderOf(lay, b) + i < words && b in disk && |disk[b]| == words
    requires if last then |own[b]| == depth - 1 && bottom != words
             else |own[b]| < depth - 1 || (header == META_HEADER_WORDS && bottom == words)
    requires var c := disk[b][HeaderOf(lay, b) + i]; if isNew then c == 0 && z in free else c == z != 0
    ensures
      var disk1 := if isNew then disk[b := Put(disk[b], HeaderOf(lay, b) + i, z)][z := Zeros(if last then bottom
          else words)] else disk;
      var own1 := if isNew then own[z := own[b] + [i]] else own;
      && z in disk1 && (!last ==> |disk1[z]| >= META_HEADER_WORDS)
      && var disk2 := if last then disk1 else disk1[z := Stamped(disk1[z])];
      && BuildingOf(disk2, if isNew then free - {z} else free, own1, lay, words, depth, bottom)
      && Headed(disk2, own1, depth, bottom != words)
      && WalkTo(disk2, lay, own[b] + [i]) == z && z in own1 && own1[z] == own[b] + [i]
      && SameCells(disk, disk2, lay, header, depth) && OthersSame(disk, disk2, own, free)
      && OwnersGrew(own, own1, free) && GrewWithin(own, own1, {own[b] + [i]})
      && |own1| == |own| + if isNew then 1 else 0
  {
    hide Tree, Reached, Cell, WalkTo, OthersSame, SameCells, BuildingOf, Ptr, Headed;
    LevelFacts(disk, free, own, lay, words, depth, bottom);
    var n := if last then bottom else words;
    var disk1 := if isNew then disk[b := Put(disk[b], HeaderOf(lay, b) + i, z)][z := Zeros(n)] else disk;
    var own1 := if isNew then own[z := own[b] + [i]] else own;
    var free1 := if isNew then free - {z} else free;
    NotOwned(disk, free, own, lay, words, depth, bottom, z);
    if isNew {
      FreshLevel(disk, free, own, lay, words, depth, bottom, b, i, z, n, header);
    } else {
      ExistingLevel(disk, free, own, lay, words, depth, bottom, b, i, header);
    }
    LevelFacts(disk1, free1, own1, lay, words, depth, bottom);
    if !last {
      StampedLevel(disk, free, own, disk1, free1, own1, lay, words, depth, bottom, z, header);
    }
    HeadedBuilt(disk, own, depth, bottom != words, b, HeaderOf(lay, b) + i, isNew, z, own[b] + [i], n, last);
  }

  lemma NotOwned(disk: Disk, free: set<nat>, own: Owners, lay: Layout, words: nat, depth: nat, bottom: nat, z: nat)
    requires BuildingOf(disk, free, own, lay, words, depth, bottom)
    ensures z in free ==> z !in own
  {
  }

  // The shape of a tree: the header length and the number of cells of a bottom block, the fan-out of the blocks
  // between the dinode and the bottom, and the depth of the bottom. At depth 0 the bottom is the dinode.
  datatype Shape = Shape(header: nat, slots: nat, fan: nat, depth: nat)

  ghost predicate Sound(g: Shape) {
    0 < g.fan <= g.slots
  }

  // Cell n of the file: the path to its bottom block and the slot there.
  ghost function PathOf(n: nat, g: Shape): (p: seq<nat>)
    requires Sound(g)
    ensures |p| == g.depth
  {
    if g.depth == 0 then [] else Digits(Quot(n, g.slots), g.fan, g.depth)
  }

  ghost function SlotOf(n: nat, g: Shape): nat
    requires Sound(g)
  {
    if g.depth == 0 then n else Rem(n, g.slots)
  }

  ghost function At(disk: Disk, lay: Layout, g: Shape, n: nat): nat
    requires Sound(g)
  {
    Cell(disk, lay, g.header, PathOf(n, g), SlotOf(n, g))
  }

  // The metapath mp stands for position n.
  ghost predicate OnPath(mp: seq<nat>, n: nat, g: Shape)
    requires Sound(g)
  {
    g.depth < |mp| && mp[..g.depth] == PathOf(n, g) && mp[g.depth] == SlotOf(n, g)
  }

  // When the bottom blocks hold as many cells as the others, a path is a number in one radix.
  lemma OnPathDigits(mp: seq<nat>, n: nat, g: Shape)
    requires Sound(g) && g.slots == g.fan && g.depth < |mp|
    ensures mp[..g.depth + 1] == Digits(n, g.fan, g.depth + 1) <==> OnPath(mp, n, g)
  {
    assert Digits(n, g.fan, g.depth + 1) == PathOf(n, g) + [SlotOf(n, g)];
    assert mp[..g.depth + 1] == mp[..g.depth] + [mp[g.depth]];
    if mp[..g.depth + 1] == Digits(n, g.fan, g.depth + 1) {
      assert mp[..g.depth] == mp[..g.depth + 1][..g.depth];
    }
  }

  // A position from `pos` to the end of its bottom block: same path, later slot, and nothing else is there.
  lemma SameBottom(pos: nat, g: Shape, amount: nat, n: nat)
    requires Sound(g) && (g.depth > 0 ==> SlotOf(pos, g) + amount <= g.slots)
    ensures (PathOf(n, g) == PathOf(pos, g) && SlotOf(pos, g) <= SlotOf(n, g) < SlotOf(pos, g) + amount)
      <==> pos <= n < pos + amount
    ensures pos <= n < pos + amount ==> SlotOf(n, g) - SlotOf(pos, g) == n - pos
  {
    if g.depth > 0 {
      QuotRem(pos, g.slots);
      QuotRem(n, g.slots);
      var q, r := Quot(pos, g.slots), Rem(pos, g.slots);
      if pos <= n < pos + amount {
        assert n == q * g.slots + (r + (n - pos));
        QuotRemUnique(q, g.slots, r + (n - pos));
      } else if PathOf(n, g) == PathOf(pos, g) {
        ValueDigits(q, g.fan, g.depth);
        ValueDigits(Quot(n, g.slots), g.fan, g.depth);
      }
    }
  }

  // The path of the position after a filled bottom block.
  lemma NextBottom(pos: nat, g: Shape, amount: nat)
    requires Sound(g) && (g.depth > 0 ==> SlotOf(pos, g) + amount == g.slots)
    ensures Proper(PathOf(pos, g), g.fan)
    ensures g.depth > 0 ==> SlotOf(pos + amount, g) == 0
    ensures g.depth > 0 ==> PathOf(pos + amount, g) == Digits(Value(PathOf(pos, g), g.fan) + 1, g.fan, g.depth)
  {
    if g.depth > 0 {
      QuotRem(pos, g.slots);
      var q := Quot(pos, g.slots);
      ValueDigits(q, g.fan, g.depth);
      DigitsProper(q, g.fan, g.depth);
      assert pos + amount == (q + 1) * g.slots + 0;
      QuotRemUnique(q + 1, g.slots, 0);
    }
  }

  // The carry has reached level h: above the bottom the digits add up to the next path.
  ghost predicate Carrying(mp0: seq<nat>, mp: seq<nat>, height: nat, h: nat, amount: nat, f: nat) {
    && h <= height < |mp0| == |mp|
    && (h == height ==> mp == Put(mp0, height, mp0[height] + amount))
    && (h < height ==>
          && mp[height] == 0 && Value(mp[..height], f) == Value(mp0[..height], f) + 1
          && (mp[h] <= f || h == 0))
    && forall i | 0 < i < height && i != h :: mp[i] < f
  }

  lemma CarryStart(mp0: seq<nat>, height: nat, amount: nat, f: nat)
    requires height < |mp0| && (height > 0 ==> Proper(mp0[..height], f))
    ensures Carrying(mp0, Put(mp0, height, mp0[height] + amount), height, height, amount, f)
  {
    assert forall i | 0 < i < height :: mp0[i] == mp0[..height][i];
  }

  lemma CarryStep(mp0: seq<nat>, mp: seq<nat>, height: nat, h: nat, amount: nat, f: nat)
    requires Carrying(mp0, mp, height, h, amount, f) && h > 0 && mp[h] >= f
    ensures Carrying(mp0, Put(Put(mp, h, 0), h - 1, mp[h - 1] + 1), height, h - 1, amount, f)
  {
    var mp' := Put(Put(mp, h, 0), h - 1, mp[h - 1] + 1);
    if h == height {
      assert mp'[..height] == mp0[..height][height - 1 := mp0[height - 1] + 1];
      ValueBump(mp0[..height], f, mp0[height - 1] + 1);
    } else {
      assert mp'[..height] == mp[..height][h := 0][h - 1 := mp[h - 1] + 1];
      CarryValue(mp[..height], f, h);
    }
  }

  lemma CarryEnd(mp0: seq<nat>, mp: seq<nat>, height: nat, h: nat, amount: nat, f: nat)
    requires Carrying(mp0, mp, height, h, amount, f) && (h == 0 || mp[h] < f)
    requires f > 0 && (height > 0 ==> mp0[height] + amount >= f)
    ensures if height == 0 then mp == mp0[0 := mp0[0] + amount]
            else mp[height] == 0 && mp[..height] == Digits(Value(mp0[..height], f) + 1, f, height)
  {
    if height > 0 {
      assert Proper(mp[..height], f);
      DigitsValue(mp[..height], f);
    }
  }

  // The carry is "next logical position": mp is the path of pos, mp' what the carry makes of it.
  lemma CarryIsNext(mp: seq<nat>, mp': seq<nat>, pos: nat, g: Shape, amount: nat)
    requires Sound(g) && OnPath(mp, pos, g) && |mp'| == |mp| && (g.depth > 0 ==> mp[g.depth] + amount == g.slots)
    ensures Proper(mp[..g.depth], g.fan)
    ensures (if g.depth == 0 then mp' == mp[0 := mp[0] + amount]
             else mp'[g.depth] == 0 && mp'[..g.depth] == Digits(Value(mp[..g.depth], g.fan) + 1, g.fan, g.depth))
      ==> OnPath(mp', pos + amount, g)
  {
    NextBottom(pos, g, amount);
  }

  // How many positions there are, given the slots of the dinode.
  ghost function Room(g: Shape, top: nat): nat {
    if g.depth == 0 then top else top * Pow(g.fan, g.depth - 1) * g.slots
  }

  lemma RoomOfPointers(g: Shape, top: nat)
    requires g.slots == g.fan
    ensures Room(g, top) == top * Pow(g.fan, g.depth)
  {
    if g.depth == 0 {
      PowZero(g.fan);
    } else {
      Associate(top, Pow(g.fan, g.depth - 1), g.fan);
    }
  }

  lemma RoomOfData(g: Shape, top: nat)
    requires g.depth > 0
    ensures Room(g, top) == Capacity(g.slots, top, g.fan, g.depth)
  {
    var p := Pow(g.fan, g.depth - 1);
    Associate(g.slots, top, p);
    assert g.slots * (top * p) == (top * p) * g.slots;
  }

  // The path of position n stays inside the blocks: only the first digit can be too large for its block.
  ghost predicate Inside(n: nat, g: Shape, top: nat)
    requires Sound(g)
  {
    if g.depth > 0 then PathOf(n, g)[0] < top else SlotOf(n, g) < top
  }

  // That is so exactly for the positions there is room for.
  lemma PathInside(n: nat, g: Shape, top: nat)
    requires Sound(g)
    ensures Inside(n, g, top) <==> n < Room(g, top)
    ensures g.depth > 0 ==> SlotOf(n, g) < g.slots
    ensures Proper(PathOf(n, g), g.fan) && forall i | 0 < i < g.depth :: PathOf(n, g)[i] < g.fan
  {
    if g.depth > 0 {
      QuotBelow(n, g.slots, top * Pow(g.fan, g.depth - 1));
      FirstDigit(Quot(n, g.slots), g.fan, g.depth, top);
      DigitsProper(Quot(n, g.slots), g.fan, g.depth);
      QuotRem(n, g.slots);
    }
  }

  // The digits of such a path fit into the 32-bit numbers of struct metapath.
  lemma DigitsFit(n: nat, g: Shape, top: nat)
    requires Sound(g) && n < Room(g, top) && top <= 0x1_0000_0000 && g.slots <= 0x1_0000_0000
    ensures SlotOf(n, g) < 0x1_0000_0000 && forall i | 0 <= i < g.depth :: PathOf(n, g)[i] < 0x1_0000_0000
  {
    hide Digits, Quot, Rem;
    PathInside(n, g, top);
  }

  // Only a slot of the dinode starts a path.
  lemma {:induction false} WalkStarts(disk: Disk, lay: Layout, p: seq<nat>)
    requires p != [] && WalkTo(disk, lay, p) != 0
    ensures lay.dinode in disk && DINODE_WORDS + p[0] < |disk[lay.dinode]|
    decreases |p|
  {
    if |p| > 1 {
      WalkStarts(disk, lay, p[..|p| - 1]);
    }
  }

  // A tree maps only positions there is room for.
  lemma MappedInside(disk: Disk, lay: Layout, g: Shape, top: nat, n: nat)
    requires Sound(g) && (lay.dinode in disk ==> |disk[lay.dinode]| == DINODE_WORDS + top) && At(disk, lay, g, n) != 0
    ensures n < Room(g, top)
  {
    PathInside(n, g, top);
    if g.depth > 0 {
      WalkStarts(disk, lay, PathOf(n, g));
    }
  }

  // Every block of the tree but the dinode, and but the blocks of journaled data, has a GFS2 header.
  ghost predicate Headed(disk: Disk, own: Owners, depth: nat, data: bool) {
    forall b | b in own && own[b] != [] && (data ==> |own[b]| < depth) :: b in disk && META_HEADER <= disk[b]
  }

  lemma HeadedLevel(disk: Disk, own: Owners, disk': Disk, own': Owners, depth: nat, data: bool, z: nat)
    requires Headed(disk, own, depth, data)
    requires forall b | b in own' && b != z :: b in own && own'[b] == own[b]
    requires forall b | b in disk :: b in disk' && (b != z && b in own && own[b] != [] ==> META_HEADER <= disk[b] ==>
                                                    META_HEADER <= disk'[b])
    requires z in own' ==> z in disk' && (META_HEADER <= disk'[z] || (data && |own'[z]| >= depth))
    ensures Headed(disk', own', depth, data)
  {
  }

  // One level of building: block z, new or not, hangs at position o of block b.
  lemma HeadedBuilt(disk: Disk, own: Owners, depth: nat, data: bool, b: nat, o: nat, isNew: bool, z: nat, p: seq<nat>,
                    n: nat,
                    last: bool)
    requires Headed(disk, own, depth, data) && b in own && b in disk && o < |disk[b]|
    requires own[b] != [] ==> o >= META_HEADER_WORDS
    requires if isNew then z !in own && (!last ==> n >= META_HEADER_WORDS)
      else z in own && z in disk && own[z] == p && (!last ==> |disk[z]| >= META_HEADER_WORDS)
    requires last ==> data && |p| == depth
    ensures
      var disk1 := if isNew then disk[b := Put(disk[b], o, z)][z := Zeros(n)] else disk;
      var own1 := if isNew then own[z := p] else own;
      && (last ==> Headed(disk1, own1, depth, data))
      && (!last ==> Headed(disk1[z := Stamped(disk1[z])], own1, depth, data))
  {
    if own[b] != [] && META_HEADER <= disk[b] {
      HeaderKept(disk[b], o, z, []);
    }
  }

  lemma HeaderKept(w: seq<nat>, o: nat, v: nat, src: seq<nat>)
    requires META_HEADER <= w && o >= META_HEADER_WORDS
    ensures o < |w| ==> META_HEADER <= Put(w, o, v)
    ensures o + |src| <= |w| ==> META_HEADER <= Copied(w, o, src)
  {
    assert |META_HEADER| == META_HEADER_WORDS;
  }

  lemma HeadedWritten(disk: Disk, own: Owners, depth: nat, data: bool, x: nat, o: nat, src: seq<nat>)
    requires Headed(disk, own, depth, data) && x in own && x in disk && |own[x]| == depth && o + |src| <= |disk[x]|
    requires !data && depth > 0 ==> o >= META_HEADER_WORDS
    ensures Headed(disk[x := Copied(disk[x], o, src)], own, depth, data)
  {
    if !data && depth > 0 && META_HEADER <= disk[x] {
      HeaderKept(disk[x], o, 0, src);
    }
  }

  // The tree grew only at these paths.
  ghost predicate GrewWithin(own: Owners, own': Owners, paths: set<seq<nat>>) {
    && (forall b | b in own :: b in own' && own'[b] == own[b])
    && forall b | b in own' :: b in own || own'[b] in paths
  }

  lemma GrewNothing(own: Owners, paths: set<seq<nat>>)
    ensures GrewWithin(own, own, paths)
  {
  }

  lemma GrewMore(own: Owners, own1: Owners, own2: Owners, more: set<seq<nat>>, paths: set<seq<nat>>)
    requires GrewWithin(own, own1, paths) && GrewWithin(own1, own2, more) && more <= paths
    ensures GrewWithin(own, own2, paths)
  {
  }

  // The paths to the blocks on the way to a bottom block.
  ghost function Prefixes(p: seq<nat>): set<seq<nat>> {
    set k | 0 < k <= |p| :: p[..k]
  }

  // There is no block at some path of these.
  ghost predicate Missing(own: Owners, paths: set<seq<nat>>) {
    exists p :: p in paths && forall b | b in own :: own[b] != p
  }

  lemma MissingMore(own: Owners, paths: set<seq<nat>>, more: set<seq<nat>>)
    requires Missing(own, paths) && paths <= more
    ensures Missing(own, more)
  {
  }

  lemma StillThere(own: Owners, own': Owners, paths: set<seq<nat>>, more: set<seq<nat>>)
    requires !Missing(own, paths) && GrewWithin(own, own', more)
    ensures !Missing(own', paths)
  {
    forall p | p in paths ensures exists b :: b in own' && own'[b] == p {
      var b :| b in own && own[b] == p;
      assert own'[b] == p;
    }
  }

  lemma BothThere(own: Owners, a: set<seq<nat>>, b: set<seq<nat>>)
    requires !Missing(own, a) && !Missing(own, b)
    ensures !Missing(own, a + b)
  {
  }

  // On the way to a block of the tree there are blocks.
  lemma NoneMissing(disk: Disk, lay: Layout, own: Owners, depth: nat, p: seq<nat>)
    requires Tree(disk, lay, own, depth) && |p| <= depth && WalkTo(disk, lay, p) != 0
    ensures !Missing(own, Prefixes(p))
  {
    forall q | q in Prefixes(p) ensures exists b :: b in own && own[b] == q {
      var k :| 0 < k <= |p| && q == p[..k];
      WalkPrefix(disk, lay, p, k);
      Walked(disk, lay, own, depth, q);
      assert WalkTo(disk, lay, q) in own;
    }
  }

  // The last cell of a run in one bottom block.
  lemma LastOfRun(mp: seq<nat>, pos: nat, g: Shape, amount: nat)
    requires Sound(g) && OnPath(mp, pos, g) && amount > 0 && (g.depth > 0 ==> mp[g.depth] + amount <= g.slots)
    ensures PathOf(pos + amount - 1, g) == PathOf(pos, g)
  {
    SameBottom(pos, g, amount, pos + amount - 1);
  }

  // What one block of the old tree holds spans at most two blocks of the new one, those of its first and last cell.
  lemma RunEnds(base: nat, size: nat, g: Shape, x: nat)
    requires Sound(g) && base <= x < base + size && size <= g.slots
    ensures PathOf(x, g) == PathOf(base, g) || PathOf(x, g) == PathOf(base + size - 1, g)
  {
    if g.depth > 0 {
      hide Digits;
      QuotMonotone(base, x, g.slots);
      QuotMonotone(x, base + size - 1, g.slots);
      QuotMonotone(base + size - 1, base + g.slots, g.slots);
      assert Quot(base + g.slots, g.slots) == 1 + Quot(base, g.slots);
    }
  }

  lemma QuotMonotone(a: nat, b: nat, f: nat)
    requires f > 0 && a <= b
    ensures Quot(a, f) <= Quot(b, f)
  {
    QuotBelow(a, f, Quot(a, f));
    QuotBelow(b, f, Quot(a, f));
  }

  // The cells at base, base + 1, ... are those of src, all others are as before.
  ghost predicate Wrote(disk: Disk, disk': Disk, lay: Layout, g: Shape, base: nat, src: seq<nat>)
    requires Sound(g)
  {
    forall n: nat :: At(disk', lay, g, n) == (if base <= n < base + |src| then src[n - base] else At(disk, lay, g, n))
  }

  // Building the path changes no cell; then the run is written.
  lemma RunWritten(disk: Disk, disk1: Disk, disk2: Disk, own: Owners, free: set<nat>, own1: Owners, lay: Layout,
                   g: Shape,
                   pos: nat, src: seq<nat>, x: nat)
    requires Sound(g) && SameCells(disk, disk1, lay, g.header, g.depth) && Wrote(disk1, disk2, lay, g, pos, src)
    requires OthersSame(disk, disk1, own, free) && OwnersGrew(own, own1, free) && x in own1
    requires forall b | b in disk1 && b != x :: b in disk2 && disk2[b] == disk1[b]
    requires x in disk2
    ensures Wrote(disk, disk2, lay, g, pos, src) && OthersSame(disk, disk2, own, free)
  {
    assert forall n: nat :: At(disk1, lay, g, n) == At(disk, lay, g, n);
  }

  // What the rebuilding loops keep, relative to the state they started in: exactly the cells src were
  // written, only blocks of the tree and free blocks were touched, and every block taken was accounted for.
  ghost predicate Progress(disk: Disk, own: Owners, free: set<nat>, blocks: int, disk': Disk, own': Owners,
                           free': set<nat>, blocks': int,
                           lay: Layout, g: Shape, base: nat, src: seq<nat>)
    requires Sound(g)
  {
    && Wrote(disk, disk', lay, g, base, src)
    && OthersSame(disk, disk', own, free) && OwnersGrew(own, own', free)
    && free' <= free && blocks' + |free'| == blocks + |free|
  }

  lemma ProgressAdded(disk: Disk, own: Owners, free: set<nat>, blocks: int, disk1: Disk, own1: Owners, free1: set<nat>,
                      blocks1: int,
                      disk2: Disk, own2: Owners, free2: set<nat>, blocks2: int,
                      lay: Layout, g: Shape, base: nat, src: seq<nat>, copied: nat, amount: nat)
    requires Sound(g) && copied + amount <= |src|
    requires Progress(disk, own, free, blocks, disk1, own1, free1, blocks1, lay, g, base, src[..copied])
    requires Progress(disk1, own1, free1, blocks1, disk2, own2, free2, blocks2, lay, g, base + copied,
                      src[copied..][..amount])
    ensures Progress(disk, own, free, blocks, disk2, own2, free2, blocks2, lay, g, base, src[..copied + amount])
  {
    WroteMore(disk, disk1, disk2, lay, g, base, src[..copied], src[copied..][..amount]);
    assert src[..copied] + src[copied..][..amount] == src[..copied + amount];
  }

  lemma NoProgress(disk: Disk, own: Owners, free: set<nat>, blocks: int, lay: Layout, g: Shape, base: nat)
    requires Sound(g)
    ensures Progress(disk, own, free, blocks, disk, own, free, blocks, lay, g, base, [])
  {
  }

  lemma WroteMore(disk: Disk, disk1: Disk, disk2: Disk, lay: Layout, g: Shape, base: nat, src: seq<nat>, src2: seq<nat>)
    requires Sound(g) && Wrote(disk, disk1, lay, g, base, src) && Wrote(disk1, disk2, lay, g, base + |src|, src2)
    ensures Wrote(disk, disk2, lay, g, base, src + src2)
  {
  }

  // The block x with src copied over its cells from position o.
  function Copied(x: seq<nat>, o: nat, src: seq<nat>): (x': seq<nat>)
    requires o + |src| <= |x|
    ensures |x'| == |x| && forall i | 0 <= i < |x| :: x'[i] == if o <= i < o + |src| then src[i - o] else x[i]
  {
    x[..o] + src + x[o + |src|..]
  }

  // Writing `src` into the bottom block on the path of pos changes exactly the cells at pos, pos + 1, ...
  lemma WrittenBlocks(disk: Disk, free: set<nat>, own: Owners, lay: Layout, words: nat, g: Shape, bottom: nat,
                      pos: nat, src: seq<nat>, x: nat)
    requires BuildingOf(disk, free, own, lay, words, g.depth, bottom) && Sound(g)
    requires x == WalkTo(disk, lay, PathOf(pos, g)) != 0
    requires g.depth > 0 ==> SlotOf(pos, g) + |src| <= g.slots
    requires if g.depth == 0 then DINODE_WORDS + SlotOf(pos, g) + |src| <= words
      else g.header + SlotOf(pos, g) + |src| <= bottom
    ensures x in own && x in disk && |disk[x]| == if g.depth == 0 then words else bottom
    ensures
      var o := (if g.depth == 0 then DINODE_WORDS else g.header) + SlotOf(pos, g);
      var disk' := disk[x := Copied(disk[x], o, src)];
      BuildingOf(disk', free, own, lay, words, g.depth, bottom) && Wrote(disk, disk', lay, g, pos, src)
  {
    hide PathOf, SlotOf, Quot, Rem, Digits;
    var q, at := PathOf(pos, g), SlotOf(pos, g);
    Walked(disk, lay, own, g.depth, q);
    var o := (if g.depth == 0 then DINODE_WORDS else g.header) + at;
    var disk' := disk[x := Copied(disk[x], o, src)];
    WrittenTree(disk, disk', lay, own, g.depth, x, disk'[x]);
    forall c | c in own ensures WalkTo(disk', lay, own[c]) == c {
      WalkFrame(disk, disk', lay, own, g.depth, g.depth, own[c]);
    }
    forall n: nat ensures At(disk', lay, g, n) == (if pos <= n < pos + |src| then src[n - pos]
                                                   else At(disk, lay, g, n)) {
      SameBottom(pos, g, |src|, n);
      WrittenCell(disk, disk', lay, own, g.depth, g.header, q, at, src, PathOf(n, g), SlotOf(n, g));
    }
  }
}
