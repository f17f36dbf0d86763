/**
 Metadata trees on disk: blocks of pointers below a dinode, walked along paths.

 A block holding metadata is kept as a sequence of 8-byte words, a block holding file data as a
 sequence of bytes. A ghost map gives each block of a tree the one path that leads to it; it is what
 makes the tree free of sharing.
 */
module MetaTrees {
  import opened MetaPaths

  type Disk = map<nat, seq<nat>>

  type Owners = map<nat, seq<nat>>

  const DINODE_WORDS: nat := 29         // sizeof(struct gfs2_dinode) and of struct gfs_dinode
  const META_HEADER_WORDS: nat := 3     // sizeof(struct gfs2_meta_header)
  const GFS1_INDIRECT_WORDS: nat := 11  // sizeof(struct gfs_indirect)

  // A tree that is only a dinode.
  ghost function OnlyDinode(dinode: nat): Owners {
    map[dinode := []]
  }

  // Which block is the dinode, and how long the headers of the other blocks are.
  datatype Layout = Layout(dinode: nat, header: nat)

  function HeaderOf(lay: Layout, b: nat): nat {
    if b == lay.dinode then DINODE_WORDS else lay.header
  }

  // Slot i of block b; 0 is the null pointer, and slots past the end of the block are null.
  function Ptr(disk: Disk, lay: Layout, b: nat, i: nat): nat {
    if b != 0 && b in disk && HeaderOf(lay, b) + i < |disk[b]| then disk[b][HeaderOf(lay, b) + i] else 0
  }

  // Follow the path p from the dinode.
  function WalkTo(disk: Disk, lay: Layout, p: seq<nat>): nat {
    if p == [] then lay.dinode else Ptr(disk, lay, WalkTo(disk, lay, p[..|p| - 1]), p[|p| - 1])
  }

  // Cell o of the block that the path p leads to, behind a header of the given length.
  function Cell(disk: Disk, lay: Layout, header: nat, p: seq<nat>, o: nat): nat {
    var b := WalkTo(disk, lay, p);
    var h := if b == lay.dinode then DINODE_WORDS else header;
    if b != 0 && b in disk && h + o < |disk[b]| then disk[b][h + o] else 0
  }

  // The blocks of `own` down to the given depth form a tree: every pointer leads to the block that
  // owns exactly that path.
  ghost predicate Tree(disk: Disk, lay: Layout, own: Owners, depth: nat) {
    && lay.dinode in own && lay.dinode != 0
    && (forall b | b in own :: b != 0 && b in disk && |own[b]| <= depth && (own[b] == [] <==> b == lay.dinode))
    && forall b, i {:trigger Ptr(disk, lay, b, i)} | b in own && |own[b]| < depth && Ptr(disk, lay, b, i) != 0 ::
      Ptr(disk, lay, b, i) in own && own[Ptr(disk, lay, b, i)] == own[b] + [i]
  }

  // Every owner is reached along the path it owns.
  ghost predicate Reached(disk: Disk, lay: Layout, own: Owners) {
    forall b | b in own :: WalkTo(disk, lay, own[b]) == b
  }

  lemma {:induction false} Walked(disk: Disk, lay: Layout, own: Owners, depth: nat, p: seq<nat>)
    requires Tree(disk, lay, own, depth) && |p| <= depth && WalkTo(disk, lay, p) != 0
    ensures WalkTo(disk, lay, p) in own && own[WalkTo(disk, lay, p)] == p
    decreases |p|
  {
    if p != [] {
      var q := p[..|p| - 1];
      Walked(disk, lay, own, depth, q);
      assert q + [p[|p| - 1]] == p;
    }
  }

  // A walk that leads somewhere led somewhere all the way.
  lemma {:induction false} WalkPrefix(disk: Disk, lay: Layout, p: seq<nat>, k: nat)
    requires k <= |p| && WalkTo(disk, lay, p) != 0
    ensures WalkTo(disk, lay, p[..k]) != 0
    decreases |p|
  {
    if k < |p| {
      WalkPrefix(disk, lay, p[..|p| - 1], k);
      assert p[..|p| - 1][..k] == p[..k];
    } else {
      assert p[..k] == p;
    }
  }

  // Walks see only pointers of the levels above their end.
  lemma {:induction false} WalkFrame(disk: Disk, disk': Disk, lay: Layout, own: Owners, depth: nat, d: nat, p: seq<nat>)
    requires Tree(disk, lay, own, depth) && d <= depth && |p| <= d
    requires forall b, i | b in own && |own[b]| < d :: Ptr(disk', lay, b, i) == Ptr(disk, lay, b, i)
    ensures WalkTo(disk', lay, p) == WalkTo(disk, lay, p)
    decreases |p|
  {
    if p != [] {
      var q := p[..|p| - 1];
      WalkFrame(disk, disk', lay, own, depth, d, q);
      if WalkTo(disk, lay, q) != 0 {
        Walked(disk, lay, own, depth, q);
      }
    }
  }

  // A fresh block z is linked into the empty slot i of block b.
  ghost predicate Linked(disk: Disk, disk': Disk, lay: Layout, own: Owners, depth: nat, b: nat, i: nat, z: nat) {
    && b in own && |own[b]| < depth && Ptr(disk, lay, b, i) == 0 && Ptr(disk', lay, b, i) == z
    && z != 0 && z !in own && z in disk'
    && (forall j :: Ptr(disk', lay, z, j) == 0)
    && (forall j | j != i :: Ptr(disk', lay, b, j) == Ptr(disk, lay, b, j))
    && (forall c | c in own :: c in disk')
    && (forall c, j | c in own && c != b :: Ptr(disk', lay, c, j) == Ptr(disk, lay, c, j))
  }

  lemma LinkedTree(disk: Disk, disk': Disk, lay: Layout, own: Owners, depth: nat, b: nat, i: nat, z: nat)
    requires Tree(disk, lay, own, depth) && Linked(disk, disk', lay, own, depth, b, i, z)
    ensures Tree(disk', lay, own[z := own[b] + [i]], depth)
  {
    var own' := own[z := own[b] + [i]];
    forall c, j | c in own' && |own'[c]| < depth && Ptr(disk', lay, c, j) != 0
      ensures Ptr(disk', lay, c, j) in own' && own'[Ptr(disk', lay, c, j)] == own'[c] + [j]
    {
      if c != z && (c != b || j != i) {
        assert Ptr(disk', lay, c, j) == Ptr(disk, lay, c, j);
      }
    }
  }

  // Only the walk to the new block changes; beyond it there was and is nothing.
  lemma {:induction false} LinkedWalk(disk: Disk, disk': Disk, lay: Layout, own: Owners, depth: nat, b: nat, i: nat,
                                      z: nat, p: seq<nat>)
    requires Tree(disk, lay, own, depth) && Linked(disk, disk', lay, own, depth, b, i, z)
    requires WalkTo(disk, lay, own[b]) == b && |p| <= depth
    ensures WalkTo(disk', lay, p) == if p == own[b] + [i] then z else WalkTo(disk, lay, p)
    ensures p == own[b] + [i] ==> WalkTo(disk, lay, p) == 0
    decreases |p|
  {
    if p != [] {
      var q, j := p[..|p| - 1], p[|p| - 1];
      LinkedWalk(disk, disk', lay, own, depth, b, i, z, q);
      var y := WalkTo(disk, lay, q);
      assert (own[b] + [i])[..|own[b]|] == own[b];
      if y != 0 && q != own[b] + [i] {
        Walked(disk, lay, own, depth, q);
        assert y == b ==> q == own[b] && (p == own[b] + [i] <==> j == i);
      }
    }
  }

  // Cells of the bottom level see the pointers above and the contents of the bottom blocks.
  lemma CellFrame(disk: Disk, disk': Disk, lay: Layout, own: Owners, depth: nat, header: nat, p: seq<nat>, o: nat)
    requires Tree(disk, lay, own, depth) && |p| == depth
    requires forall b, i | b in own && |own[b]| < depth :: Ptr(disk', lay, b, i) == Ptr(disk, lay, b, i)
    requires forall b | b in own && |own[b]| == depth ::
      && b in disk' && |disk'[b]| == |disk[b]|
      && var h := if b == lay.dinode then DINODE_WORDS else header;
      forall k | h <= k < |disk[b]| :: disk'[b][k] == disk[b][k]
    ensures Cell(disk', lay, header, p, o) == Cell(disk, lay, header, p, o)
  {
    WalkFrame(disk, disk', lay, own, depth, depth, p);
    if WalkTo(disk, lay, p) != 0 {
      Walked(disk, lay, own, depth, p);
    }
  }

  // Linking in an all-zero block changes no cell.
  lemma LinkedCell(disk: Disk, disk': Disk, lay: Layout, own: Owners, depth: nat, b: nat, i: nat, z: nat,
                   header: nat, p: seq<nat>, o: nat)
    requires Tree(disk, lay, own, depth) && Linked(disk, disk', lay, own, depth, b, i, z)
    requires WalkTo(disk, lay, own[b]) == b && |p| == depth && z != lay.dinode
    requires forall k | header <= k < |disk'[z]| :: disk'[z][k] == 0
    requires forall c | c in own && |own[c]| == depth :: c in disk' && disk'[c] == disk[c]
    ensures Cell(disk', lay, header, p, o) == Cell(disk, lay, header, p, o)
  {
    LinkedWalk(disk, disk', lay, own, depth, b, i, z, p);
    if WalkTo(disk, lay, p) != 0 {
      Walked(disk, lay, own, depth, p);
    }
  }

  // Writing into one bottom block changes exactly the cells written.
  lemma WrittenCell(disk: Disk, disk': Disk, lay: Layout, own: Owners, depth: nat, header: nat,
                    q: seq<nat>, at: nat, src: seq<nat>, p: seq<nat>, o: nat)
    requires Tree(disk, lay, own, depth) && |p| == |q| == depth
    requires
      var x := WalkTo(disk, lay, q);
      var h := if x == lay.dinode then DINODE_WORDS else header;
      && x != 0 && x in disk && h + at + |src| <= |disk[x]|
      && disk' == disk[x := disk[x][..h + at] + src + disk[x][h + at + |src|..]]
    ensures Cell(disk', lay, header, p, o) ==
      if p == q && at <= o < at + |src| then src[o - at] else Cell(disk, lay, header, p, o)
  {
    var x := WalkTo(disk, lay, q);
    Walked(disk, lay, own, depth, q);
    WalkFrame(disk, disk', lay, own, depth, depth, p);
    WalkFrame(disk, disk', lay, own, depth, depth, q);
    if WalkTo(disk, lay, p) == x {
      Walked(disk, lay, own, depth, p);
    }
  }

  // A write to a bottom block leaves the tree a tree.
  lemma WrittenTree(disk: Disk, disk': Disk, lay: Layout, own: Owners, depth: nat, x: nat, w: seq<nat>)
    requires Tree(disk, lay, own, depth) && x in own && |own[x]| == depth && disk' == disk[x := w]
    ensures Tree(disk', lay, own, depth)
  {
    forall b, i | b in own && |own[b]| < depth && Ptr(disk', lay, b, i) != 0
      ensures Ptr(disk', lay, b, i) in own && own[Ptr(disk', lay, b, i)] == own[b] + [i]
    {
      assert Ptr(disk', lay, b, i) == Ptr(disk, lay, b, i);
    }
  }
}
