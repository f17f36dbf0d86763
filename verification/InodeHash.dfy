/**
 The inode tree of inode_hash.c: a search tree of inode records ordered by block address, built on
 the red-black tree of osi_tree.h.
 */
module InodeHash {
  import opened RedBlackTrees
  import opened OsiTree

  // struct lgfs2_inum
  datatype Inum = Inum(addr: nat, formalIno: nat)

  // struct inode_info without its tree node
  datatype InodeInfo = InodeInfo(num: Inum, diNlink: nat, countedLinks: nat)

  type Infos = map<nat, InodeInfo>

  // The records of the nodes of a sequence have strictly ascending addresses.
  ghost predicate Ascending(info: Infos, s: seq<nat>) {
    && (forall n | n in s :: n in info)
    && forall i, j | 0 <= i < j < |s| :: info[s[i]].num.addr < info[s[j]].num.addr
  }

  ghost predicate AllBelow(info: Infos, s: seq<nat>, k: nat) {
    forall n | n in s :: n in info && info[n].num.addr < k
  }

  ghost predicate AllAbove(info: Infos, s: seq<nat>, k: nat) {
    forall n | n in s :: n in info && info[n].num.addr > k
  }

  // An ascending order, split at one node.
  lemma AscendingSplit(info: Infos, a: seq<nat>, n: nat, b: seq<nat>)
    requires Ascending(info, a + [n] + b)
    ensures n in info && AllBelow(info, a, info[n].num.addr) && AllAbove(info, b, info[n].num.addr)
  {
    var s := a + [n] + b;
    assert s[|a|] == n && n in s;
    forall m | m in a ensures m in info && info[m].num.addr < info[n].num.addr {
      var i :| 0 <= i < |a| && a[i] == m;
      assert s[i] == m && m in s;
    }
    forall m | m in b ensures m in info && info[m].num.addr > info[n].num.addr {
      var i :| 0 <= i < |b| && b[i] == m;
      assert s[|a| + 1 + i] == m && m in s;
    }
  }

  lemma AscendingJoin(info: Infos, info': Infos, a: seq<nat>, n: nat, b: seq<nat>)
    requires Ascending(info, a + b) && n in info'
    requires AllBelow(info, a, info'[n].num.addr) && AllAbove(info, b, info'[n].num.addr)
    requires forall m | m in info && m != n :: m in info' && info'[m] == info[m]
    requires n !in a && n !in b
    ensures Ascending(info', a + [n] + b)
  {
    var s, s' := a + b, a + [n] + b;
    forall i, j | 0 <= i < j < |s'| ensures s'[i] in info' && s'[j] in info' &&
        info'[s'[i]].num.addr < info'[s'[j]].num.addr {
      if i < |a| { assert s[i] == s'[i] && s'[i] in a; }
      if i > |a| { assert s[i - 1] == s'[i] && s'[i] in b; }
      if j < |a| { assert s[j] == s'[j] && s'[j] in a; }
      if j > |a| { assert s[j - 1] == s'[j] && s'[j] in b; }
    }
  }

  lemma AscendingWithout(info: Infos, a: seq<nat>, n: nat, b: seq<nat>)
    requires Ascending(info, a + [n] + b)
    ensures Ascending(info, a + b) && n !in a && n !in b
  {
    var s, r := a + [n] + b, a + b;
    AscendingSplit(info, a, n, b);
    forall m | m in r ensures m in info {
      assert m in s;
    }
    forall i, j | 0 <= i < j < |r| ensures info[r[i]].num.addr < info[r[j]].num.addr {
      var i', j' := if i < |a| then i else i + 1, if j < |a| then j else j + 1;
      assert r[i] == s[i'] && r[j] == s[j'];
    }
  }

  lemma SplitAt(s: seq<nat>, n: nat) returns (a: seq<nat>, b: seq<nat>)
    requires n in s
    ensures s == a + [n] + b
  {
    var i :| 0 <= i < |s| && s[i] == n;
    a, b := s[..i], s[i + 1..];
  }

  lemma BelowParts(info: Infos, a: seq<nat>, b: seq<nat>, k: nat)
    requires AllBelow(info, a + b, k)
    ensures AllBelow(info, a, k) && AllBelow(info, b, k)
  {
    assert forall n | n in a || n in b :: n in a + b;
  }

  lemma AboveParts(info: Infos, a: seq<nat>, b: seq<nat>, k: nat)
    requires AllAbove(info, a + b, k)
    ensures AllAbove(info, a, k) && AllAbove(info, b, k)
  {
    assert forall n | n in a || n in b :: n in a + b;
  }

  lemma InMiddle(a: seq<nat>, n: nat, b: seq<nat>)
    ensures n in a + [n] + b
  {
    assert (a + [n] + b)[|a|] == n;
  }

  // Below a node reached by a descent for key k, with smaller keys before it and larger after it, the
  // comparison with the node's key says on which side k belongs.
  ghost predicate Descending(pool: Pool, root: nat, tree: Tree, info: Infos, k: nat, ctx: Context, t: Tree) {
    && At(pool, root, ctx, t) && Plug(ctx, t) == tree
    && AllBelow(info, Before(ctx), k) && AllAbove(info, After(ctx), k)
  }

  lemma Descend(pool: Pool, root: nat, tree: Tree, info: Infos, k: nat, ctx: Context, t: Tree)
    requires Descending(pool, root, tree, info, k, ctx, t) && t.Branch? && Ascending(info, InOrder(tree))
    ensures t.node in pool && t.node != NIL && t.node in info && t.node in InOrder(tree)
    ensures pool[t.node].left == Ref(t.left) && pool[t.node].right == Ref(t.right)
    ensures t.left.Branch? ==> t.left.node != NIL
    ensures t.right.Branch? ==> t.right.node != NIL
    ensures k < info[t.node].num.addr ==>
      Descending(pool, root, tree, info, k, InLeft(ctx, t.node, t.color, t.right), t.left)
    ensures k > info[t.node].num.addr ==>
      Descending(pool, root, tree, info, k, InRight(t.left, t.node, t.color, ctx), t.right)
  {
    hide At, Ascending;
    Fields(pool, root, ctx, t);
    InOrderPlug(ctx, t);
    Regroup(Before(ctx), InOrder(t.left), t.node, InOrder(t.right), After(ctx));
    AscendingSplit(info, Before(ctx) + InOrder(t.left), t.node, InOrder(t.right) + After(ctx));
    Refocus(pool, root, ctx, t, InLeft(ctx, t.node, t.color, t.right), t.left);
    Refocus(pool, root, ctx, t, InRight(t.left, t.node, t.color, ctx), t.right);
    BelowParts(info, Before(ctx), InOrder(t.left), info[t.node].num.addr);
    AboveParts(info, InOrder(t.right), After(ctx), info[t.node].num.addr);
    InMiddle(Before(ctx) + InOrder(t.left), t.node, InOrder(t.right) + After(ctx));
  }

  lemma Begin(pool: Pool, root: nat, tree: Tree, info: Infos, k: nat)
    requires At(pool, root, Top, tree)
    ensures Descending(pool, root, tree, info, k, Top, tree) && root == Ref(tree) && (root != NIL <==> tree.Branch?)
  {
    Fields(pool, root, Top, tree);
  }

  // The new record takes its place in the order.
  lemma Place(pool: Pool, root: nat, tree: Tree, info: Infos, no: Inum, ctx: Context, n: nat)
    requires Descending(pool, root, tree, info, no.addr, ctx, Leaf) && Ascending(info, InOrder(tree)) && n !in info
    ensures Ascending(info[n := InodeInfo(no, 0, 0)], Before(ctx) + [n] + After(ctx))
    ensures At(pool, root, ctx, Leaf) && Plug(ctx, Leaf) == tree
    ensures (set m | m in Before(ctx) + [n] + After(ctx) :: info[n := InodeInfo(no, 0, 0)][m].num.addr)
         == (set m | m in InOrder(tree) :: info[m].num.addr) + {no.addr}
  {
    Absent(pool, root, tree, info, no.addr, ctx);
    AscendingJoin(info, info[n := InodeInfo(no, 0, 0)], Before(ctx), n, After(ctx));
    var info' := info[n := InodeInfo(no, 0, 0)];
    var s, s' := InOrder(tree), Before(ctx) + [n] + After(ctx);
    assert forall m :: m in s' <==> m in s || m == n;
    assert forall m | m in s :: m in info && m != n && info'[m] == info[m];
  }

  lemma AscendingSame(info: Infos, info': Infos, s: seq<nat>)
    requires Ascending(info, s) && forall n | n in s :: n in info' && info'[n] == info[n]
    ensures Ascending(info', s)
  {
  }

  // A descent that ends at a null pointer: the key is absent, and its place is known.
  lemma Absent(pool: Pool, root: nat, tree: Tree, info: Infos, k: nat, ctx: Context)
    requires Descending(pool, root, tree, info, k, ctx, Leaf)
    ensures InOrder(tree) == Before(ctx) + After(ctx)
    ensures forall n | n in InOrder(tree) :: n in info && info[n].num.addr != k
  {
    InOrderPlug(ctx, Leaf);
  }

  class InodeTree {
    const root: OsiRoot
    var info: Infos

    ghost predicate Valid()
      reads this, root
    {
      root.Valid() && root.pool.Keys == info.Keys && NIL !in info && Ascending(info, InOrder(root.tree))
    }

    // The block addresses with a record.
    ghost function Keys(): set<nat>
      requires Valid()
      reads this, root
    {
      set n | n in InOrder(root.tree) :: info[n].num.addr
    }

    constructor ()
      ensures Valid() && Keys() == {} && fresh(root)
    {
      root := new OsiRoot();
      info := map[];
    }

    method Find(block: nat) returns (n: nat)
      requires Valid()
      ensures if n == NIL then block !in Keys() else n in Nodes(root.tree) && n in info && info[n].num.addr == block
    {
      hide At, Nodes, Descending, Ascending, RedBlack;
      n := root.osiNode;
      ghost var ctx, t := Context.Top, root.tree;
      Begin(root.pool, root.osiNode, root.tree, info, block);
      while n != NIL
        invariant Descending(root.pool, root.osiNode, root.tree, info, block, ctx, t) && n == Ref(t)
        invariant n != NIL <==> t.Branch?
        decreases t
      {
        Descend(root.pool, root.osiNode, root.tree, info, block, ctx, t);
        if block < info[n].num.addr {
          ctx, t := InLeft(ctx, t.node, t.color, t.right), t.left;
          n := root.pool[n].left;
        } else if block > info[n].num.addr {
          ctx, t := InRight(t.left, t.node, t.color, ctx), t.right;
          n := root.pool[n].right;
        } else {
          InOrderNodes(root.tree);
          return;
        }
      }
      Absent(root.pool, root.osiNode, root.tree, info, block, ctx);
    }

    // `free` is the address calloc returns. An address already present is returned unchanged.
    method Insert(no: Inum, free: nat) returns (n: nat)
      requires Valid() && free != NIL && free !in info
      modifies this, root
      ensures Valid()
      ensures n in Nodes(root.tree) && n in info
      ensures old(no.addr in Keys()) ==>
        root.tree == old(root.tree) && info == old(info) && info[n].num.addr == no.addr
      ensures old(no.addr !in Keys()) ==>
        && n == free && info == old(info)[n := InodeInfo(no, 0, 0)] && Keys() == old(Keys()) + {no.addr}
        && |InOrder(root.tree)| == |InOrder(old(root.tree))| + 1
    {
      hide At, Nodes, Descending, Ascending, RedBlack;
      var parent, cur, left := NIL, root.osiNode, false;
      ghost var ctx, t := Context.Top, root.tree;
      Begin(root.pool, root.osiNode, root.tree, info, no.addr);
      while cur != NIL
        invariant Descending(root.pool, root.osiNode, root.tree, info, no.addr, ctx, t) && cur == Ref(t)
        invariant cur != NIL <==> t.Branch?
        invariant unchanged(this) && unchanged(root)
        invariant parent == ParentRef(ctx) && (parent != NIL ==> (left <==> ctx.InLeft?))
        decreases t
      {
        Descend(root.pool, root.osiNode, root.tree, info, no.addr, ctx, t);
        parent := cur;
        if no.addr < info[cur].num.addr {
          ctx, t := InLeft(ctx, t.node, t.color, t.right), t.left;
          left := true;
          cur := root.pool[cur].left;
        } else if no.addr > info[cur].num.addr {
          ctx, t := InRight(t.left, t.node, t.color, ctx), t.right;
          left := false;
          cur := root.pool[cur].right;
        } else {
          InOrderNodes(root.tree);
          assert no.addr in Keys();
          return cur;
        }
      }
      Absent(root.pool, root.osiNode, root.tree, info, no.addr, ctx);
      n := free;
      Place(root.pool, root.osiNode, root.tree, info, no, ctx, n);
      info := info[n := InodeInfo(no, 0, 0)];
      root.LinkAndInsert(n, parent, left, ctx);
      InOrderNodes(root.tree);
    }

    method Delete(n: nat)
      requires Valid() && n in Nodes(root.tree) && n in info
      modifies this, root
      ensures Valid() && info == old(info) - {n}
      ensures Keys() == old(Keys()) - {old(info)[n].num.addr}
    {
      hide At, Nodes, RedBlack, Ascending;
      InOrderNodes(root.tree);
      ghost var a, b := SplitAt(InOrder(root.tree), n);
      AscendingWithout(info, a, n, b);
      AscendingSplit(info, a, n, b);
      WithoutMiddle(a, n, b);
      root.Erase(n);
      InOrderNodes(root.tree);
      root.Free(n);
      AscendingSame(info, info - {n}, a + b);
      info := info - {n};
    }

    // What the passes see when they go over the tree with osi_first and osi_next: every address once, ascending.
    method Addresses() returns (keys: seq<nat>)
      requires Valid()
      ensures forall i, j | 0 <= i < j < |keys| :: keys[i] < keys[j]
      ensures forall k :: k in keys <==> k in Keys()
    {
      hide At, RedBlack, Nodes;
      var nodes := root.Visit();
      keys := [];
      for i := 0 to |nodes|
        invariant |keys| == i && forall j | 0 <= j < i :: nodes[j] in info && keys[j] == info[nodes[j]].num.addr
      {
        assert nodes[i] in nodes;
        keys := keys + [info[nodes[i]].num.addr];
      }
      forall k | k in Keys() ensures k in keys {
        var n :| n in nodes && info[n].num.addr == k;
        var i :| 0 <= i < |nodes| && nodes[i] == n;
        assert keys[i] == k;
      }
      forall i | 0 <= i < |keys| ensures keys[i] in Keys() {
        assert nodes[i] in nodes;
      }
    }
  }

  // A search or insertion descends at most 2 * log2(n + 1) levels among n records.
  lemma SearchDepth(t: InodeTree)
    requires t.Valid()
    ensures
      var n := |InOrder(t.root.tree)|;
      Pow2(Height(t.root.tree)) <= (n + 1) * (n + 1)
  {
    HeightBound(t.root.tree);
  }
}
