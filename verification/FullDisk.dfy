/**
 Files without holes: the blocks of their old trees are enough for the new ones, so they can be converted on a file
 system that has no free blocks.
 */
module FullDisk {
  import opened MetaPaths
  import opened MetaTrees
  import opened Heights
  import opened TearDown
  import opened Rebuild
  import opened Remap
  import opened Rebyte

  // How many blocks of f slots m pointers fill.
  ghost function Up(m: nat, f: nat): nat
    requires f > 0
  {
    if m == 0 then 0 else Quot(m - 1, f) + 1
  }

  lemma UpIs(m: nat, f: nat, q: nat)
    requires f > 0
    ensures q < Up(m, f) <==> q * f < m
  {
    if m > 0 {
      QuotBelow(m - 1, f, q);
      var e := Quot(m - 1, f);
      if q <= e {
        QuotRem(m - 1, f);
        MulMonotone(q, e, f);
      }
    }
  }

  lemma UpMonotone(m: nat, m': nat, f: nat, f': nat)
    requires 0 < f' <= f && m <= m'
    ensures Up(m, f) <= Up(m', f')
  {
    if Up(m, f) > 0 {
      var q := Up(m, f) - 1;
      UpIs(m, f, q);
      MulMonotone(f', f, q);
      assert q * f' <= q * f < m';
      UpIs(m', f', q);
    }
  }

  lemma QuotUp(q: nat, m: nat, f: nat)
    requires f > 0 && q < m
    ensures Quot(q, f) < Up(m, f)
  {
    QuotRem(q, f);
    UpIs(m, f, Quot(q, f));
  }

  // The paths to the first m nodes at depth d of a tree with fan-out f, and to the nodes above them.
  ghost function FirstPaths(m: nat, f: nat, d: nat): set<seq<nat>>
    requires f > 0
    decreases d
  {
    if d == 0 then {} else LevelPaths(m, f, d) + FirstPaths(Up(m, f), f, d - 1)
  }

  ghost function LevelPaths(m: nat, f: nat, d: nat): set<seq<nat>>
    requires f > 0
  {
    set q | 0 <= q < m :: Digits(q, f, d)
  }

  // How many those are.
  ghost function Nodes(m: nat, f: nat, d: nat): nat
    requires f > 0
    decreases d
  {
    if d == 0 then 0 else m + Nodes(Up(m, f), f, d - 1)
  }

  lemma {:induction false} LevelSize(m: nat, f: nat, d: nat)
    requires f > 0 && d > 0
    ensures |LevelPaths(m, f, d)| == m
  {
    if m > 0 {
      LevelSize(m - 1, f, d);
      var p := Digits(m - 1, f, d);
      if q: nat :| q < m - 1 && Digits(q, f, d) == p {
        ValueDigits(q, f, d);
        ValueDigits(m - 1, f, d);
      }
      assert LevelPaths(m, f, d) == LevelPaths(m - 1, f, d) + {p};
    } else {
      assert LevelPaths(m, f, d) == {};
    }
  }

  lemma {:induction false} FirstPathsShort(m: nat, f: nat, d: nat, p: seq<nat>)
    requires f > 0 && p in FirstPaths(m, f, d)
    ensures 0 < |p| <= d
    decreases d
  {
    if p !in LevelPaths(m, f, d) {
      FirstPathsShort(Up(m, f), f, d - 1, p);
    }
  }

  lemma {:induction false} FirstPathsSize(m: nat, f: nat, d: nat)
    requires f > 0
    ensures |FirstPaths(m, f, d)| == Nodes(m, f, d)
    decreases d
  {
    hide Up;
    if d > 0 {
      FirstPathsSize(Up(m, f), f, d - 1);
      LevelSize(m, f, d);
      var here, above := LevelPaths(m, f, d), FirstPaths(Up(m, f), f, d - 1);
      forall p | p in above ensures p !in here {
        FirstPathsShort(Up(m, f), f, d - 1, p);
      }
      assert |here + above| == |here| + |above|;
    }
  }

  // A larger fan-out and fewer levels need fewer nodes.
  lemma {:induction false} FewerNodes(m: nat, f: nat, d: nat, m': nat, f': nat, d': nat)
    requires 0 < f' <= f && m <= m' && d <= d'
    ensures Nodes(m, f, d) <= Nodes(m', f', d')
    decreases d
  {
    if d > 0 {
      UpMonotone(m, m', f, f');
      FewerNodes(Up(m, f), f, d - 1, Up(m', f'), f', d' - 1);
    }
  }

  lemma {:induction false} PrefixFirst(q: nat, m: nat, f: nat, d: nat, k: nat)
    requires f > 0 && q < m && 0 < k <= d
    ensures Digits(q, f, d)[..k] in FirstPaths(m, f, d)
    decreases d
  {
    if k == d {
      assert Digits(q, f, d)[..k] == Digits(q, f, d);
    } else {
      QuotUp(q, m, f);
      PrefixFirst(Quot(q, f), Up(m, f), f, d - 1, k);
      assert Digits(q, f, d)[..k] == Digits(Quot(q, f), f, d - 1)[..k];
    }
  }

  // Conversely, each of these paths leads on to one of the m nodes.
  lemma {:induction false} FirstExtends(p: seq<nat>, m: nat, f: nat, d: nat)
    requires f > 0 && p in FirstPaths(m, f, d)
    ensures exists q :: 0 <= q < m && p <= Digits(q, f, d)
    decreases d
  {
    if p in LevelPaths(m, f, d) {
      var q :| 0 <= q < m && p == Digits(q, f, d);
      assert p <= Digits(q, f, d);
    } else {
      FirstPathsShort(Up(m, f), f, d - 1, p);
      FirstExtends(p, Up(m, f), f, d - 1);
      var q :| 0 <= q < Up(m, f) && p <= Digits(q, f, d - 1);
      UpIs(m, f, q);
      QuotRemUnique(q, f, 0);
      assert q * f + 0 == q * f;
      assert Digits(q * f, f, d) == Digits(q, f, d - 1) + [0];
      assert p <= Digits(q * f, f, d);
    }
  }

  // The inode maps its first `count` positions and no others.
  ghost predicate NoHoles(o: OldInode, count: nat)
    requires o.words >= 64
  {
    forall n: nat :: OldAt(o, n) != 0 <==> n < count
  }

  // The blocks of the old tree: one at every path to a mapped position.
  lemma OldBlocks(o: OldInode, count: nat)
    requires o.words >= 64 && OldFile(o) && NoHoles(o, count)
    ensures |o.own| >= 1 + Nodes(Up(count, Fan(o)), Fan(o), o.depth)
  {
    var paths := FirstPaths(Up(count, Fan(o)), Fan(o), o.depth);
    FirstPathsSize(Up(count, Fan(o)), Fan(o), o.depth);
    forall p | p in paths + {[]} ensures exists b :: b in o.own && o.own[b] == p {
      if p == [] {
        assert o.own[o.lay.dinode] == [];
      } else {
        OldBlockThere(o, count, p);
      }
    }
    if [] in paths {
      FirstPathsShort(Up(count, Fan(o)), Fan(o), o.depth, []);
    }
    hide OldFile, NoHoles, FirstPaths;
    OwnersMany(o.own, paths + {[]});
  }

  lemma OldBlockThere(o: OldInode, count: nat, p: seq<nat>)
    requires o.words >= 64 && OldFile(o) && NoHoles(o, count)
    requires p in FirstPaths(Up(count, Fan(o)), Fan(o), o.depth)
    ensures exists b :: b in o.own && o.own[b] == p
  {
    hide FirstPaths, Digits, Tree;
    var f := Fan(o);
    FirstExtends(p, Up(count, f), f, o.depth);
    FirstPathsShort(Up(count, f), f, o.depth, p);
    var q :| 0 <= q < Up(count, f) && p <= Digits(q, f, o.depth);
    UpIs(count, f, q);
    QuotRemUnique(q, f, 0);
    assert q * f + 0 == q * f;
    assert PathOf(q * f, OldShape(o)) == Digits(q, f, o.depth) && OldAt(o, q * f) != 0;
    WalkPrefix(o.disk, o.lay, Digits(q, f, o.depth), |p|);
    assert Digits(q, f, o.depth)[..|p|] == p;
    Walked(o.disk, o.lay, o.own, o.depth, p);
    assert WalkTo(o.disk, o.lay, p) in o.own;
  }

  lemma {:induction false} OwnersMany(own: Owners, paths: set<seq<nat>>)
    requires forall p | p in paths :: exists b :: b in own && own[b] == p
    ensures |own| >= |paths|
    decreases |paths|
  {
    if paths != {} {
      var p :| p in paths;
      var b :| b in own && own[b] == p;
      var own' := own - {b};
      forall p' | p' in paths - {p} ensures exists c :: c in own' && own'[c] == p' {
        var c :| c in own && own[c] == p';
        assert c in own';
      }
      OwnersMany(own', paths - {p});
      assert own'.Keys == own.Keys - {b} && |own| == |own.Keys| && |own'| == |own'.Keys|;
    }
  }

  // The blocks of the new tree are no more than that.
  lemma NeededFew(o: OldInode, count: nat, g: Shape, top: nat)
    requires o.words >= 64 && OldFile(o) && NoHoles(o, count) && Sound(g) && g.slots == g.fan
    requires Fan(o) <= g.fan && g.depth <= o.depth
    ensures |NeededPaths(o, g, top)| < |o.own|
  {
    hide OldFile;
    var paths := FirstPaths(Up(count, g.fan), g.fan, g.depth);
    forall p | p in NeededPaths(o, g, top) ensures p in paths {
      hide FirstPaths, Digits;
      var n: nat, k: nat :| n < Room(g, top) && 0 < k <= g.depth && OldAt(o, n) != 0 && p == PathOf(n, g)[..k];
      QuotUp(n, count, g.fan);
      PrefixFirst(Quot(n, g.fan), Up(count, g.fan), g.fan, g.depth, k);
    }
    SubsetSize(NeededPaths(o, g, top), paths);
    FirstPathsSize(Up(count, g.fan), g.fan, g.depth);
    UpMonotone(count, count, g.fan, Fan(o));
    FewerNodes(Up(count, g.fan), g.fan, g.depth, Up(count, Fan(o)), Fan(o), o.depth);
    OldBlocks(o, count);
  }

  // The same for journaled data, whose blocks the new tree counts too.
  lemma DataFew(o: OldInode, downs: map<nat, nat>, count: nat, size: nat, g: Shape, n: nat)
    requires o.words >= 64 && OldFile(o) && NoHoles(o, count) && DataOf(o, downs) && n < count && Sound(g)
    requires Payload(o) <= g.slots && Fan(o) <= g.fan && 0 < g.depth <= o.depth + 1
    ensures |NeededBelow(o, size, g, n + 1)| < |o.own| + |Below(downs, n + 1)|
  {
    hide OldFile, NoHoles, DataOf, NeededBelow, FirstPaths, Up;
    var paths := FirstPaths(n + 1, g.fan, g.depth);
    DataPaths(o, size, g, n);
    SubsetSize(NeededBelow(o, size, g, n + 1), paths);
    FirstPathsSize(n + 1, g.fan, g.depth);
    UpMonotone(n + 1, count, g.fan, Fan(o));
    FewerNodes(Up(n + 1, g.fan), g.fan, g.depth - 1, Up(count, Fan(o)), Fan(o), o.depth);
    OldBlocks(o, count);
    BelowAll(o, downs, count, n + 1);
  }

  lemma DataPaths(o: OldInode, size: nat, g: Shape, n: nat)
    requires o.words >= 64 && Sound(g) && Payload(o) <= g.slots && 0 < g.depth
    ensures NeededBelow(o, size, g, n + 1) <= FirstPaths(n + 1, g.fan, g.depth)
  {
    hide FirstPaths, Digits, OldAt, Kept, Quot;
    var needed, paths := NeededBelow(o, size, g, n + 1), FirstPaths(n + 1, g.fan, g.depth);
    forall p | p in needed ensures p in paths {
      var x, k :| 0 <= x < FirstByte(o, n + 1) && Kept(o, size, x) && OldAt(o, Quot(x, Payload(o))) != 0 &&
                  0 < k <= g.depth && p == PathOf(x, g)[..k];
      MulMonotone(Payload(o), g.slots, n + 1);
      QuotBelow(x, g.slots, n + 1);
      PrefixFirst(Quot(x, g.slots), n + 1, g.fan, g.depth, k);
    }
  }

  lemma {:induction false} BelowAll(o: OldInode, downs: map<nat, nat>, count: nat, n: nat)
    requires o.words >= 64 && NoHoles(o, count) && DataOf(o, downs) && n <= count
    ensures |Below(downs, n)| == n
    decreases n
  {
    if n > 0 {
      BelowAll(o, downs, count, n - 1);
      BelowNext(o, downs, n - 1);
    } else {
      assert Below(downs, 0) == {};
    }
  }

  // The new tree is no higher than the old one.
  lemma NoHigher(o: OldInode, count: nat, size: nat, unit: nat, height: nat)
    requires o.words >= 64 && OldFile(o) && NoHoles(o, count) && size <= count * unit
    requires LeastHeight(size, unit, o.words - DINODE_WORDS, o.words - META_HEADER_WORDS, height)
    ensures height <= o.depth + 1
  {
    hide OldFile, NoHoles, Capacity, Pow, Fan, LeastHeight;
    var top, f := o.words - DINODE_WORDS, o.words - META_HEADER_WORDS;
    if count > 0 {
      CountFits(o, count);
      CapacityLarger(count, size, unit, top, Fan(o), f, o.depth);
    }
    LeastHeightIs(size, unit, top, f, height, o.depth + 1);
  }

  lemma CountFits(o: OldInode, count: nat)
    requires o.words >= 64 && OldFile(o) && NoHoles(o, count) && count > 0
    ensures count <= (o.words - DINODE_WORDS) * Pow(Fan(o), o.depth) && 0 < Fan(o) <= o.words - META_HEADER_WORDS
  {
    hide Room, Pow, Reached;
    assert OldAt(o, count - 1) != 0;
    MappedInside(o.disk, o.lay, OldShape(o), o.words - DINODE_WORDS, count - 1);
    RoomOfPointers(OldShape(o), o.words - DINODE_WORDS);
  }

  lemma CapacityLarger(count: nat, size: nat, unit: nat, top: nat, f: nat, f': nat, d: nat)
    requires count <= top * Pow(f, d) && size <= count * unit && f <= f'
    ensures size <= Capacity(unit, top, f', d + 1)
  {
    hide Pow;
    PowLarger(f, f', d);
    MulMonotone(Pow(f, d), Pow(f', d), top);
    MulMonotone(count, top * Pow(f', d), unit);
    Associate(unit, top, Pow(f', d));
  }

  lemma LeastHeightIs(size: nat, unit: nat, diptrs: nat, inptrs: nat, height: nat, k: nat)
    requires LeastHeight(size, unit, diptrs, inptrs, height) && inptrs > 0 && k > 0
    requires size == 0 || size <= Capacity(unit, diptrs, inptrs, k)
    ensures height <= k
  {
    hide Capacity;
    if height > k {
      CapacityMonotone(unit, diptrs, inptrs, k, height - 1);
    }
  }

  lemma {:induction false} PowLarger(f: nat, f': nat, k: nat)
    requires f <= f'
    ensures Pow(f, k) <= Pow(f', k)
  {
    if k > 0 {
      PowLarger(f, f', k - 1);
      MulMonotone(f, f', Pow(f, k - 1));
      MulMonotone(Pow(f, k - 1), Pow(f', k - 1), f');
    }
  }

  // A file of the given size without holes.
  ghost predicate Contiguous(o: OldInode, size: nat, unit: nat)
    requires o.words >= 64
  {
    exists count: nat :: NoHoles(o, count) && size <= count * unit
  }

  // Such a regular file or directory needs no block that was free before, ...
  lemma ContiguousFile(o: OldInode, size: nat, unit: nat, height: nat)
    requires o.words >= 64 && OldFile(o) && Contiguous(o, size, unit)
    requires LeastHeight(size, unit, o.words - DINODE_WORDS, o.words - META_HEADER_WORDS, height)
    ensures
      var slots := o.words - META_HEADER_WORDS;
      |NeededPaths(o, Shape(META_HEADER_WORDS, slots, slots, height - 1), o.words - DINODE_WORDS)| <= |o.own| - 1
  {
    hide OldFile, NoHoles, LeastHeight, NeededPaths;
    var slots := o.words - META_HEADER_WORDS;
    var count: nat :| NoHoles(o, count) && size <= count * unit;
    NoHigher(o, count, size, unit, height);
    LeastHeightPositive(size, unit, o.words - DINODE_WORDS, slots, height);
    NeededFew(o, count, Shape(META_HEADER_WORDS, slots, slots, height - 1), o.words - DINODE_WORDS);
  }

  lemma LeastHeightPositive(size: nat, unit: nat, diptrs: nat, inptrs: nat, height: nat)
    requires LeastHeight(size, unit, diptrs, inptrs, height)
    ensures height > 0
  {
  }

  // ... and neither does such a file of journaled data.
  lemma ContiguousData(o: OldInode, downs: map<nat, nat>, size: nat, height: nat)
    requires o.words >= 64 && OldFile(o) && DataOf(o, downs) && Contiguous(o, size, Payload(o))
    requires LeastHeight(size, 8 * o.words, o.words - DINODE_WORDS, o.words - META_HEADER_WORDS, height)
    ensures forall n: nat | OldAt(o, n) != 0 ::
      |NeededBelow(o, size, Shape(0, 8 * o.words, o.words - META_HEADER_WORDS, height), n + 1)| <=
      |o.own| - 1 + |Below(downs, n + 1)|
  {
    hide OldFile, LeastHeight, NeededBelow, Below, DataOf, OldAt;
    var count: nat :| NoHoles(o, count) && size <= count * Payload(o);
    MulMonotone(Payload(o), 8 * o.words, count);
    assert count * Payload(o) == Payload(o) * count && count * (8 * o.words) == (8 * o.words) * count;
    NoHigher(o, count, size, 8 * o.words, height);
    LeastHeightPositive(size, 8 * o.words, o.words - DINODE_WORDS, o.words - META_HEADER_WORDS, height);
    var g := Shape(0, 8 * o.words, o.words - META_HEADER_WORDS, height);
    forall n: nat | OldAt(o, n) != 0
      ensures |NeededBelow(o, size, g, n + 1)| <= |o.own| - 1 + |Below(downs, n + 1)|
    {
      DataFew(o, downs, count, size, g, n);
    }
  }
}
