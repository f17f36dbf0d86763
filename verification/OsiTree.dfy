/**
 The red-black tree of osi_tree.h: nodes with parent pointers, rotations, the two rebalancing
 loops, erasure and in-order stepping.

 The node structs live in `pool`, a memory from addresses to nodes; the pointer updates of the
 source are updates of that memory. The representation predicates tie the memory to the trees
 and contexts of module RedBlackTrees.
 */
module OsiTree {
  import opened RedBlackTrees

  // struct osi_node: the packed parent-and-colour word is two fields here.
  datatype Node = Node(parent: nat, color: Color, left: nat, right: nat)

  type Pool = map<nat, Node>

  // The memory holds tree t, hanging below the node p.
  ghost predicate Holds(pool: Pool, t: Tree, p: nat) {
    match t
    case Leaf => true
    case Branch(l, n, c, r) =>
      && n != NIL && n in pool && pool[n] == Node(p, c, Ref(l), Ref(r))
      && Holds(pool, l, n) && Holds(pool, r, n)
      && n !in Nodes(l) && n !in Nodes(r) && Nodes(l) !! Nodes(r)
  }

  // The memory holds the surroundings ctx of a subtree whose root pointer is `hole`.
  ghost predicate Surrounds(pool: Pool, root: nat, ctx: Context, hole: nat)
    decreases ctx
  {
    match ctx
    case Top => root == hole
    case InLeft(up, n, c, s) =>
      && n != NIL && n in pool && pool[n] == Node(ParentRef(up), c, hole, Ref(s))
      && Holds(pool, s, n) && Surrounds(pool, root, up, n)
      && n !in Nodes(s) && n !in ContextNodes(up) && Nodes(s) !! ContextNodes(up)
    case InRight(s, n, c, up) =>
      && n != NIL && n in pool && pool[n] == Node(ParentRef(up), c, Ref(s), hole)
      && Holds(pool, s, n) && Surrounds(pool, root, up, n)
      && n !in Nodes(s) && n !in ContextNodes(up) && Nodes(s) !! ContextNodes(up)
  }

  // The memory holds the tree Plug(ctx, t), cut at t.
  ghost predicate At(pool: Pool, root: nat, ctx: Context, t: Tree) {
    Surrounds(pool, root, ctx, Ref(t)) && Holds(pool, t, ParentRef(ctx)) && Nodes(t) !! ContextNodes(ctx)
  }

  // ----- frame lemmas

  lemma {:induction false} HoldsFrame(pool: Pool, pool': Pool, t: Tree, p: nat)
    requires Holds(pool, t, p)
    requires forall n | n in Nodes(t) && n in pool :: n in pool' && pool'[n] == pool[n]
    ensures Holds(pool', t, p)
  {
    if t.Branch? {
      HoldsFrame(pool, pool', t.left, t.node);
      HoldsFrame(pool, pool', t.right, t.node);
    }
  }

  lemma {:induction false} SurroundsFrame(pool: Pool, pool': Pool, root: nat, ctx: Context, hole: nat)
    requires Surrounds(pool, root, ctx, hole)
    requires forall n | n in ContextNodes(ctx) && n in pool :: n in pool' && pool'[n] == pool[n]
    ensures Surrounds(pool', root, ctx, hole)
    decreases ctx
  {
    match ctx
    case Top =>
    case InLeft(up, n, c, s) => HoldsFrame(pool, pool', s, n); SurroundsFrame(pool, pool', root, up, n);
    case InRight(s, n, c, up) => HoldsFrame(pool, pool', s, n); SurroundsFrame(pool, pool', root, up, n);
  }

  lemma {:induction false} HoldsNodes(pool: Pool, t: Tree, p: nat)
    requires Holds(pool, t, p)
    ensures NIL !in Nodes(t) && forall n | n in Nodes(t) :: n in pool
  {
    if t.Branch? {
      HoldsNodes(pool, t.left, t.node);
      HoldsNodes(pool, t.right, t.node);
    }
  }

  lemma {:induction false} SurroundsNodes(pool: Pool, root: nat, ctx: Context, hole: nat)
    requires Surrounds(pool, root, ctx, hole)
    ensures NIL !in ContextNodes(ctx) && forall n | n in ContextNodes(ctx) :: n in pool
    ensures if ctx.Top? then root == hole else root in ContextNodes(ctx)
    decreases ctx
  {
    match ctx
    case Top =>
    case InLeft(up, n, c, s) => HoldsNodes(pool, s, n); SurroundsNodes(pool, root, up, n);
    case InRight(s, n, c, up) => HoldsNodes(pool, s, n); SurroundsNodes(pool, root, up, n);
  }

  // Cutting and closing do not change what the memory holds.
  lemma {:induction false} AtPlug(pool: Pool, root: nat, ctx: Context, t: Tree)
    ensures At(pool, root, ctx, t) <==> At(pool, root, Top, Plug(ctx, t))
    decreases ctx
  {
    match ctx
    case Top =>
    case InLeft(up, n, c, s) => AtPlug(pool, root, up, Branch(t, n, c, s));
    case InRight(s, n, c, up) => AtPlug(pool, root, up, Branch(s, n, c, t));
  }

  // The memory with one child pointer of the hole's parent redirected (or the root pointer).
  ghost predicate Redirected(pool: Pool, root: nat, pool': Pool, root': nat, ctx: Context, hole': nat) {
    match ctx
    case Top => root' == hole'
    case InLeft(_, n, _, _) =>
      root' == root && n in pool && n in pool' && pool'[n] == pool[n].(left := hole')
    case InRight(_, n, _, _) =>
      root' == root && n in pool && n in pool' && pool'[n] == pool[n].(right := hole')
  }

  // Redirecting the hole's parent and leaving the other surrounding nodes alone moves the hole.
  lemma SurroundsRedirected(pool: Pool, root: nat, pool': Pool, root': nat, ctx: Context, hole: nat, hole': nat)
    requires Surrounds(pool, root, ctx, hole)
    requires Redirected(pool, root, pool', root', ctx, hole')
    requires forall n | n in ContextNodes(ctx) && n != ParentRef(ctx) && n in pool :: n in pool' && pool'[n] == pool[n]
    ensures Surrounds(pool', root', ctx, hole')
  {
    match ctx
    case Top =>
    case InLeft(up, n, c, s) => HoldsFrame(pool, pool', s, n); SurroundsFrame(pool, pool', root, up, n);
    case InRight(s, n, c, up) => HoldsFrame(pool, pool', s, n); SurroundsFrame(pool, pool', root, up, n);
  }

  // A subtree may be re-hung: only its root node's parent field changes.
  lemma HoldsRehung(pool: Pool, pool': Pool, t: Tree, p: nat, p': nat)
    requires Holds(pool, t, p)
    requires t.Branch? ==> t.node in pool && t.node in pool' && pool'[t.node] == pool[t.node].(parent := p')
    requires forall n | n in Nodes(t) && n != Ref(t) && n in pool :: n in pool' && pool'[n] == pool[n]
    ensures Holds(pool', t, p')
  {
    if t.Branch? {
      HoldsFrame(pool, pool', t.left, t.node);
      HoldsFrame(pool, pool', t.right, t.node);
    }
  }

  // ----- what the rotations do to a subtree

  function RotatedLeft(t: Tree): Tree
    requires t.Branch? && t.right.Branch?
  {
    var r := t.right;
    Branch(Branch(t.left, t.node, t.color, r.left), r.node, r.color, r.right)
  }

  function RotatedRight(t: Tree): Tree
    requires t.Branch? && t.left.Branch?
  {
    var l := t.left;
    Branch(l.left, l.node, l.color, Branch(l.right, t.node, t.color, t.right))
  }

  // One unfolding of Holds.
  lemma Parts(pool: Pool, t: Tree, p: nat)
    requires Holds(pool, t, p) && t.Branch?
    ensures t.node != NIL && t.node in pool && pool[t.node] == Node(p, t.color, Ref(t.left), Ref(t.right))
    ensures Holds(pool, t.left, t.node) && Holds(pool, t.right, t.node)
    ensures t.node !in Nodes(t.left) && t.node !in Nodes(t.right) && Nodes(t.left) !! Nodes(t.right)
    ensures Nodes(t) == Nodes(t.left) + {t.node} + Nodes(t.right)
  {
  }

  // The pointers a rotation at t touches: t's node, child k, grandchild g and t's parent, all different.
  lemma RotationPointers(pool: Pool, root: nat, ctx: Context, t: Tree, k: Tree, g: Tree)
    requires At(pool, root, ctx, t)
    requires t.Branch? && k.Branch? && (k == t.left || k == t.right) && (g == k.left || g == k.right)
    ensures t.node in pool && k.node in pool && t.node != k.node && t.node != NIL && k.node != NIL
    ensures g.Branch? ==> g.node in pool && g.node != NIL && g.node != k.node && g.node != t.node
    ensures ctx != Top ==>
      && ctx.node in pool && ctx.node != NIL && ctx.node != t.node && ctx.node != k.node
      && (g.Branch? ==> g.node != ctx.node)
    ensures pool[t.node] == Node(ParentRef(ctx), t.color, Ref(t.left), Ref(t.right))
    ensures pool[k.node] == Node(t.node, k.color, Ref(k.left), Ref(k.right))
    ensures ctx != Top ==> (pool[ctx.node].left == t.node <==> pool[ctx.node].right != t.node)
  {
    Parts(pool, t, ParentRef(ctx));
    Parts(pool, k, t.node);
    assert k.node in Nodes(k) && t.node in Nodes(t) && k.node in Nodes(t);
    if g.Branch? { assert g.node in Nodes(g) && g.node in Nodes(k) && g.node in Nodes(t); }
    if ctx != Top {
      assert ctx.node in ContextNodes(ctx);
      if ctx.sibling.Branch? { assert ctx.sibling.node in ContextNodes(ctx); }
    }
  }

  // Which way the parent of the rotated subtree is redirected.
  ghost predicate ParentRedirected(pool: Pool, root: nat, pool': Pool, root': nat, p: nat, n: nat, n': nat) {
    if p == NIL then root' == n'
    else
      && root' == root && p in pool && p in pool'
      && pool'[p] == if pool[p].left == n then pool[p].(left := n') else pool[p].(right := n')
  }

  // A node held in a tree whose left and right pointers are told apart.
  lemma ParentRedirectedContext(pool: Pool, root: nat, pool': Pool, root': nat, ctx: Context, n: nat, n': nat)
    requires Surrounds(pool, root, ctx, n) && n != NIL && n !in ContextNodes(ctx)
    requires ParentRedirected(pool, root, pool', root', ParentRef(ctx), n, n')
    ensures Redirected(pool, root, pool', root', ctx, n')
  {
    if ctx.InRight? && ctx.sibling.Branch? {
      assert ctx.sibling.node in Nodes(ctx.sibling) && ctx.sibling.node in ContextNodes(ctx);
    }
  }

  // What a rotation at x, with child k and grandchild g changing sides below parent p, does to the memory:
  // x' and k' are the new contents of x and k.
  ghost predicate Rotated(pool: Pool, root: nat, pool': Pool, root': nat, x: nat, k: nat, g: nat, p: nat,
                          x': Node, k': Node) {
    && pool'.Keys == pool.Keys
    && x in pool && k in pool && pool'[x] == x' && pool'[k] == k'
    && (g != NIL ==> g in pool && pool'[g] == pool[g].(parent := x))
    && ParentRedirected(pool, root, pool', root', p, x, k)
    && forall n | n in pool && n != x && n != k && n != g && n != p :: pool'[n] == pool[n]
  }

  ghost predicate LeftRotated(pool: Pool, root: nat, pool': Pool, root': nat, x: nat)
    requires x in pool && pool[x].right in pool
  {
    var k, p := pool[x].right, pool[x].parent;
    var g := pool[k].left;
    Rotated(pool, root, pool', root', x, k, g, p, pool[x].(parent := k, right := g), pool[k].(parent := p, left := x))
  }

  ghost predicate RightRotated(pool: Pool, root: nat, pool': Pool, root': nat, x: nat)
    requires x in pool && pool[x].left in pool
  {
    var k, p := pool[x].left, pool[x].parent;
    var g := pool[k].right;
    Rotated(pool, root, pool', root', x, k, g, p, pool[x].(parent := k, left := g), pool[k].(parent := p, right := x))
  }

  // The surroundings see only that their hole moved from x to k.
  lemma RotatedSurrounds(pool: Pool, root: nat, pool': Pool, root': nat, ctx: Context, t: Tree, k: Tree, g: Tree,
                         x': Node, k': Node)
    requires At(pool, root, ctx, t) && t.Branch? && k.Branch?
    requires k == t.left || k == t.right
    requires g == k.left || g == k.right
    requires Rotated(pool, root, pool', root', t.node, k.node, Ref(g), ParentRef(ctx), x', k')
    ensures Surrounds(pool', root', ctx, k.node)
  {
    Parts(pool, t, ParentRef(ctx));
    Parts(pool, k, t.node);
    assert t.node in Nodes(t) && k.node in Nodes(t) && (g.Branch? ==> g.node in Nodes(t));
    SurroundsNodes(pool, root, ctx, t.node);
    ParentRedirectedContext(pool, root, pool', root', ctx, t.node, k.node);
    SurroundsRedirected(pool, root, pool', root', ctx, t.node, k.node);
  }

  // The outer grandchild's and the other child's subtrees hold none of the nodes a rotation changes.
  lemma OuterApart(pool: Pool, root: nat, ctx: Context, t: Tree, k: Tree, g: Tree, outer: Tree, other: Tree)
    requires At(pool, root, ctx, t) && t.Branch? && k.Branch?
    requires (k == t.left && other == t.right) || (k == t.right && other == t.left)
    requires (g == k.left && outer == k.right) || (g == k.right && outer == k.left)
    ensures Holds(pool, other, t.node) && Holds(pool, outer, k.node)
    ensures forall n | n in Nodes(other) || n in Nodes(outer) ::
      n in pool && n != t.node && n != k.node && n != Ref(g) && n != ParentRef(ctx)
  {
    Parts(pool, t, ParentRef(ctx));
    Parts(pool, k, t.node);
    assert g.Branch? ==> g.node in Nodes(g);
    assert k.node in Nodes(k);
    assert ctx != Top ==> ctx.node in ContextNodes(ctx) && ctx.node !in Nodes(t);
    HoldsNodes(pool, t, ParentRef(ctx));
  }

  // The three subtrees move unharmed: the outer grandchild's and the other child's ...
  lemma RotatedOuter(pool: Pool, root: nat, pool': Pool, root': nat, ctx: Context, t: Tree, k: Tree, g: Tree,
                     outer: Tree, other: Tree, x': Node, k': Node)
    requires At(pool, root, ctx, t) && t.Branch? && k.Branch?
    requires (k == t.left && other == t.right) || (k == t.right && other == t.left)
    requires (g == k.left && outer == k.right) || (g == k.right && outer == k.left)
    requires Rotated(pool, root, pool', root', t.node, k.node, Ref(g), ParentRef(ctx), x', k')
    ensures Holds(pool', other, t.node) && Holds(pool', outer, k.node)
  {
    hide At, Holds, Surrounds, Nodes, ContextNodes;
    OuterApart(pool, root, ctx, t, k, g, outer, other);
    HoldsFrame(pool, pool', other, t.node);
    HoldsFrame(pool, pool', outer, k.node);
  }

  // ... and the inner grandchild's, which is re-hung.
  lemma RotatedInner(pool: Pool, root: nat, pool': Pool, root': nat, ctx: Context, t: Tree, k: Tree, g: Tree, x': Node,
                     k': Node)
    requires At(pool, root, ctx, t) && t.Branch? && k.Branch?
    requires k == t.left || k == t.right
    requires g == k.left || g == k.right
    requires Rotated(pool, root, pool', root', t.node, k.node, Ref(g), ParentRef(ctx), x', k')
    ensures Holds(pool', g, t.node)
  {
    Parts(pool, t, ParentRef(ctx));
    Parts(pool, k, t.node);
    assert ctx != Top ==> ctx.node in ContextNodes(ctx) && ctx.node !in Nodes(t);
    HoldsNodes(pool, g, k.node);
    HoldsRehung(pool, pool', g, k.node, t.node);
  }

  // x, its child k, k's inner child g and x's parent are four different nodes (or null), and the
  // parent points at x from exactly one side.
  ghost predicate Rotatable(pool: Pool, x: nat, k: nat, g: nat) {
    && x != NIL && k != NIL && x != k && x in pool && k in pool
    && g != x && g != k && (g != NIL ==> g in pool)
    && var p := pool[x].parent;
       p != x && p != k && (p != NIL ==> p in pool && p != g && (pool[p].left == x <==> pool[p].right != x))
  }

  lemma LeftRotatedHeld(pool: Pool, root: nat, pool': Pool, root': nat, ctx: Context, t: Tree)
    requires At(pool, root, ctx, t) && t.Branch? && t.right.Branch?
    requires t.node in pool && pool[t.node].right in pool && LeftRotated(pool, root, pool', root', t.node)
    ensures At(pool', root', ctx, RotatedLeft(t))
  {
    var r := t.right;
    RotationPointers(pool, root, ctx, t, r, r.left);
    RotatedSurrounds(pool, root, pool', root', ctx, t, r, r.left, pool'[t.node], pool'[r.node]);
    RotatedOuter(pool, root, pool', root', ctx, t, r, r.left, r.right, t.left, pool'[t.node], pool'[r.node]);
    RotatedInner(pool, root, pool', root', ctx, t, r, r.left, pool'[t.node], pool'[r.node]);
    Parts(pool, t, ParentRef(ctx));
    Parts(pool, r, t.node);
    assert Nodes(RotatedLeft(t)) == Nodes(t);
  }

  lemma RightRotatedHeld(pool: Pool, root: nat, pool': Pool, root': nat, ctx: Context, t: Tree)
    requires At(pool, root, ctx, t) && t.Branch? && t.left.Branch?
    requires t.node in pool && pool[t.node].left in pool && RightRotated(pool, root, pool', root', t.node)
    ensures At(pool', root', ctx, RotatedRight(t))
  {
    var l := t.left;
    RotationPointers(pool, root, ctx, t, l, l.right);
    RotatedSurrounds(pool, root, pool', root', ctx, t, l, l.right, pool'[t.node], pool'[l.node]);
    RotatedOuter(pool, root, pool', root', ctx, t, l, l.right, l.left, t.right, pool'[t.node], pool'[l.node]);
    RotatedInner(pool, root, pool', root', ctx, t, l, l.right, pool'[t.node], pool'[l.node]);
    Parts(pool, t, ParentRef(ctx));
    Parts(pool, l, t.node);
    assert Nodes(RotatedRight(t)) == Nodes(t);
  }

  // The same tree may be cut at any of its nodes.
  lemma Refocus(pool: Pool, root: nat, ctx: Context, t: Tree, ctx': Context, t': Tree)
    requires At(pool, root, ctx, t) && Plug(ctx, t) == Plug(ctx', t')
    ensures At(pool, root, ctx', t')
  {
    AtPlug(pool, root, ctx, t);
    AtPlug(pool, root, ctx', t');
  }

  // Recolouring the node at the cut.
  lemma Recolored(pool: Pool, root: nat, ctx: Context, t: Tree, c: Color)
    requires At(pool, root, ctx, t) && t.Branch?
    ensures t.node in pool
    ensures At(pool[t.node := pool[t.node].(color := c)], root, ctx, t.(color := c))
  {
    var pool' := pool[t.node := pool[t.node].(color := c)];
    Parts(pool, t, ParentRef(ctx));
    HoldsFrame(pool, pool', t.left, t.node);
    HoldsFrame(pool, pool', t.right, t.node);
    assert t.node !in ContextNodes(ctx);
    SurroundsFrame(pool, pool', root, ctx, t.node);
  }

  // What the fields of the node at the cut, and of its parent, look like.
  lemma Fields(pool: Pool, root: nat, ctx: Context, t: Tree)
    requires At(pool, root, ctx, t)
    ensures t.Branch? ==>
      t.node in pool && t.node != NIL && pool[t.node] == Node(ParentRef(ctx), t.color, Ref(t.left), Ref(t.right))
    ensures t.Branch? && t.left.Branch? ==>
      t.left.node in pool && t.left.node != NIL && pool[t.left.node] == Node(t.node, t.left.color, Ref(t.left.left),
          Ref(t.left.right))
    ensures t.Branch? && t.right.Branch? ==>
      t.right.node in pool && t.right.node != NIL && pool[t.right.node] == Node(t.node, t.right.color,
          Ref(t.right.left), Ref(t.right.right))
    ensures t.Branch? && t.left.Branch? ==> t.left.node != Ref(t.right)
    ensures ctx.Top? ==> root == Ref(t)
    ensures ctx != Top ==> ctx.node in pool && ctx.node != NIL && root != Ref(t)
    ensures ctx.InLeft? ==> pool[ctx.node] == Node(ParentRef(ctx.up), ctx.color, Ref(t), Ref(ctx.sibling))
    ensures ctx.InRight? ==> pool[ctx.node] == Node(ParentRef(ctx.up), ctx.color, Ref(ctx.sibling), Ref(t))
    ensures ctx.InLeft? && t.Branch? ==> Ref(ctx.sibling) != t.node
    ensures ctx.InRight? && t.Branch? ==> Ref(ctx.sibling) != t.node
  {
    SurroundsNodes(pool, root, ctx, Ref(t));
    if t.Branch? {
      assert t.node in Nodes(t);
      Parts(pool, t, ParentRef(ctx));
      if t.left.Branch? { Parts(pool, t.left, t.node); assert t.left.node in Nodes(t.left); }
      if t.right.Branch? { Parts(pool, t.right, t.node); assert t.right.node in Nodes(t.right); }
    }
    if ctx != Top && ctx.sibling.Branch? {
      assert ctx.sibling.node in ContextNodes(ctx);
    }
  }

  lemma RecoloredLeft(pool: Pool, root: nat, ctx: Context, t: Tree, c: Color)
    requires At(pool, root, ctx, t) && t.Branch? && t.left.Branch?
    ensures t.left.node in pool
    ensures At(pool[t.left.node := pool[t.left.node].(color := c)], root, ctx, t.(left := t.left.(color := c)))
    ensures InOrder(t.(left := t.left.(color := c))) == InOrder(t)
  {
    var l := t.left;
    var at := InLeft(ctx, t.node, t.color, t.right);
    Refocus(pool, root, ctx, t, at, l);
    Recolored(pool, root, at, l, c);
    Refocus(pool[l.node := pool[l.node].(color := c)], root, at, l.(color := c), ctx, t.(left := l.(color := c)));
  }

  lemma RecoloredRight(pool: Pool, root: nat, ctx: Context, t: Tree, c: Color)
    requires At(pool, root, ctx, t) && t.Branch? && t.right.Branch?
    ensures t.right.node in pool
    ensures At(pool[t.right.node := pool[t.right.node].(color := c)], root, ctx, t.(right := t.right.(color := c)))
    ensures InOrder(t.(right := t.right.(color := c))) == InOrder(t)
  {
    var r := t.right;
    var at := InRight(t.left, t.node, t.color, ctx);
    Refocus(pool, root, ctx, t, at, r);
    Recolored(pool, root, at, r, c);
    Refocus(pool[r.node := pool[r.node].(color := c)], root, at, r.(color := c), ctx, t.(right := r.(color := c)));
  }

  // A tree cut at a node, with the black height of the subtree.
  datatype Cut = Cut(ctx: Context, t: Tree, h: nat)

  // The state of the insertion loop: everything is balanced but t is red and so may be its parent.
  ghost predicate Inserting(pool: Pool, root: nat, c: Cut) {
    At(pool, root, c.ctx, c.t) && c.t.Branch? && c.t.color.Red? && Balanced(c.t, c.h) && Fits(c.ctx, Black, c.h)
  }

  // The subtree at the parent.
  ghost function ParentTree(c: Cut): Tree
    requires c.ctx != Top
  {
    if c.ctx.InLeft? then Branch(c.t, c.ctx.node, c.ctx.color, c.ctx.sibling)
    else Branch(c.ctx.sibling, c.ctx.node, c.ctx.color, c.t)
  }

  // The subtrees at the parent and at the grandparent of a red node with a red parent.
  lemma Parents(pool: Pool, root: nat, c: Cut)
    requires Inserting(pool, root, c) && c.ctx != Top && c.ctx.color.Red?
    ensures c.ctx.up != Top && c.ctx.up.color.Black? && RootColor(c.ctx.sibling).Black? && Balanced(c.ctx.sibling, c.h)
    ensures ParentTree(c) == if c.ctx.InLeft? then Branch(c.t, c.ctx.node, Red, c.ctx.sibling)
      else Branch(c.ctx.sibling, c.ctx.node, Red, c.t)
    ensures
      var up, sub := c.ctx.up, ParentTree(c);
      && Balanced(up.sibling, c.h) && Fits(up.up, Black, c.h + 1)
      && Plug(up, sub) == Plug(c.ctx, c.t) && At(pool, root, up, sub)
      && up.node in pool && up.node != NIL && Ref(up.sibling) != sub.node
      && sub.node in pool && pool[sub.node] == Node(up.node, Red, Ref(sub.left), Ref(sub.right))
      && c.t.node in pool && c.t.node != Ref(c.ctx.sibling)
      && (up.sibling.Branch? ==>
            && up.sibling.node in pool && up.sibling.node != NIL
            && pool[up.sibling.node].color == up.sibling.color)
    ensures
      var up, sub := c.ctx.up, ParentTree(c);
      var g := if up.InLeft? then Branch(sub, up.node, Black, up.sibling) else Branch(up.sibling, up.node, Black, sub);
      && At(pool, root, up.up, g) && Plug(up.up, g) == Plug(c.ctx, c.t)
      && pool[up.node] == Node(ParentRef(up.up), Black, Ref(g.left), Ref(g.right))
  {
    var up, sub := c.ctx.up, ParentTree(c);
    assert Fits(up, Red, c.h);
    Fields(pool, root, c.ctx, c.t);
    Refocus(pool, root, c.ctx, c.t, up, sub);
    Fields(pool, root, up, sub);
    var g := if up.InLeft? then Branch(sub, up.node, Black, up.sibling) else Branch(up.sibling, up.node, Black, sub);
    Refocus(pool, root, up, sub, up.up, g);
    Fields(pool, root, up.up, g);
  }

  // The three recolourings of the two lists of statements that push redness up to the grandparent.
  lemma Flipped(pool: Pool, root: nat, ctx: Context, t: Tree)
    requires At(pool, root, ctx, t) && t.Branch? && t.left.Branch? && t.right.Branch?
    ensures t.node in pool && t.left.node in pool && t.right.node in pool
    ensures
      var n, l, r := t.node, t.left.node, t.right.node;
      var t' := Branch(Blacken(t.left), n, Red, Blacken(t.right));
      && n != l && n != r && l != r
      && At(pool[r := pool[r].(color := Black)][l := pool[l].(color := Black)][n := pool[n].(color := Red)], root, ctx,
            t')
      && At(pool[l := pool[l].(color := Black)][r := pool[r].(color := Black)][n := pool[n].(color := Red)], root, ctx,
            t')
      && InOrder(t') == InOrder(t)
  {
    Fields(pool, root, ctx, t);
    var n, l, r := t.node, t.left.node, t.right.node;
    RotationPointers(pool, root, ctx, t, t.left, t.left.left);
    RotationPointers(pool, root, ctx, t, t.right, t.right.left);
    RecoloredRight(pool, root, ctx, t, Black);
    var p1, t1 := pool[r := pool[r].(color := Black)], t.(right := t.right.(color := Black));
    RecoloredLeft(p1, root, ctx, t1, Black);
    var p2, t2 := p1[l := p1[l].(color := Black)], t1.(left := t1.left.(color := Black));
    Recolored(p2, root, ctx, t2, Red);
    assert p2 == pool[l := pool[l].(color := Black)][r := pool[r].(color := Black)];
  }

  // The recolouring of a node and one of its children, child first.
  lemma RecoloredPair(pool: Pool, root: nat, ctx: Context, t: Tree, left: bool, kc: Color, c: Color)
    requires At(pool, root, ctx, t) && t.Branch? && (if left then t.left.Branch? else t.right.Branch?)
    ensures
      var k := if left then t.left else t.right;
      var t' := if left then Branch(k.(color := kc), t.node, c, t.right)
          else Branch(t.left, t.node, c, k.(color := kc));
      && t.node in pool && k.node in pool && k.node != t.node
      && At(pool[k.node := pool[k.node].(color := kc)][t.node := pool[t.node].(color := c)], root, ctx, t')
      && InOrder(t') == InOrder(t)
  {
    var k := if left then t.left else t.right;
    RotationPointers(pool, root, ctx, t, k, k.left);
    if left {
      RecoloredLeft(pool, root, ctx, t, kc);
    } else {
      RecoloredRight(pool, root, ctx, t, kc);
    }
    var p1 := pool[k.node := pool[k.node].(color := kc)];
    Recolored(p1, root, ctx, if left then t.(left := k.(color := kc)) else t.(right := k.(color := kc)), c);
  }

  // Blackening the root ends the insertion: the parent of the red node t is black, or t is the root.
  lemma BlackRoot(pool: Pool, root: nat, ctx: Context, t: Tree, h: nat) returns (t': Tree)
    requires At(pool, root, ctx, t) && t.Branch? && Balanced(t, h) && Fits(ctx, Black, h)
    requires ctx.Top? || ctx.color.Black?
    ensures root in pool && At(pool[root := pool[root].(color := Black)], root, Top, t')
    ensures RedBlack(t') && InOrder(t') == InOrder(Plug(ctx, t))
  {
    Fields(pool, root, ctx, t);
    t' := Blacken(Plug(ctx, t));
    AtPlug(pool, root, ctx, t);
    if Plug(ctx, t).Leaf? { InOrderPlug(ctx, t); assert false; }
    Recolored(pool, root, Top, Plug(ctx, t), Black);
    if ctx.Top? {
      assert Balanced(t', h + 1) || Balanced(t', h);
    } else {
      assert Fits(ctx, t.color, h);
      BalancedPlug(ctx, t, h);
    }
  }

  // A rotation at t is allowed, and does to the tree what it should.
  lemma LeftRotation(pool: Pool, root: nat, ctx: Context, t: Tree)
    requires At(pool, root, ctx, t) && t.Branch? && t.right.Branch?
    ensures t.node in pool && t.right.node in pool && pool[t.node].right == t.right.node
    ensures Rotatable(pool, t.node, t.right.node, pool[t.right.node].left)
    ensures forall pool', root' | LeftRotated(pool, root, pool', root', t.node) ::
      At(pool', root', ctx, RotatedLeft(t)) && pool'.Keys == pool.Keys
    ensures InOrder(RotatedLeft(t)) == InOrder(t)
  {
    RotationPointers(pool, root, ctx, t, t.right, t.right.left);
    forall pool', root' | LeftRotated(pool, root, pool', root', t.node)
      ensures At(pool', root', ctx, RotatedLeft(t))
    {
      LeftRotatedHeld(pool, root, pool', root', ctx, t);
    }
  }

  lemma RightRotation(pool: Pool, root: nat, ctx: Context, t: Tree)
    requires At(pool, root, ctx, t) && t.Branch? && t.left.Branch?
    ensures t.node in pool && t.left.node in pool && pool[t.node].left == t.left.node
    ensures Rotatable(pool, t.node, t.left.node, pool[t.left.node].right)
    ensures forall pool', root' | RightRotated(pool, root, pool', root', t.node) ::
      At(pool', root', ctx, RotatedRight(t)) && pool'.Keys == pool.Keys
    ensures InOrder(RotatedRight(t)) == InOrder(t)
  {
    RotationPointers(pool, root, ctx, t, t.left, t.left.right);
    forall pool', root' | RightRotated(pool, root, pool', root', t.node)
      ensures At(pool', root', ctx, RotatedRight(t))
    {
      RightRotatedHeld(pool, root, pool', root', ctx, t);
    }
  }

  // Rearranging a subtree without changing its order does not change the order of the whole.
  lemma SameOrder(ctx: Context, t: Tree, t': Tree)
    requires InOrder(t) == InOrder(t')
    ensures InOrder(Plug(ctx, t)) == InOrder(Plug(ctx, t'))
  {
    InOrderPlug(ctx, t);
    InOrderPlug(ctx, t');
  }

  // Colouring t's left child kc and t itself c and then rotating right raises the child above t; the
  // tree can then be cut at the child's own left child.
  lemma LeftChildRaised(pool: Pool, root: nat, ctx: Context, t: Tree, kc: Color, c: Color)
    requires At(pool, root, ctx, t) && t.Branch? && t.left.Branch?
    ensures t.node in pool && t.left.node in pool && t.left.node != t.node
    ensures
      var n, k := t.node, t.left.node;
      var pool2 := pool[k := pool[k].(color := kc)][n := pool[n].(color := c)];
      var ctx' := InLeft(ctx, k, kc, Branch(t.left.right, n, c, t.right));
      && n in pool2 && pool2[n].left == k && Rotatable(pool2, n, k, pool2[k].right)
      && (forall pool', root' | RightRotated(pool2, root, pool', root', n) ::
            && At(pool', root', ctx', t.left.left) && pool'.Keys == pool.Keys
            && At(pool', root', InRight(t.left.left, k, kc, ctx), Branch(t.left.right, n, c, t.right)))
      && InOrder(Plug(ctx', t.left.left)) == InOrder(Plug(ctx, t))
      && InOrder(Plug(InRight(t.left.left, k, kc, ctx), Branch(t.left.right, n, c, t.right))) == InOrder(Plug(ctx, t))
  {
    var n, k := t.node, t.left.node;
    RecoloredPair(pool, root, ctx, t, true, kc, c);
    var pool2 := pool[k := pool[k].(color := kc)][n := pool[n].(color := c)];
    var t2 := Branch(t.left.(color := kc), n, c, t.right);
    RightRotation(pool2, root, ctx, t2);
    var ctx' := InLeft(ctx, k, kc, Branch(t.left.right, n, c, t.right));
    assert Plug(ctx', t.left.left) == Plug(ctx, RotatedRight(t2));
    SameOrder(ctx, t, RotatedRight(t2));
    forall pool', root' | RightRotated(pool2, root, pool', root', n)
      ensures At(pool', root', ctx', t.left.left)
      ensures At(pool', root', InRight(t.left.left, k, kc, ctx), Branch(t.left.right, n, c, t.right))
    {
      Refocus(pool', root', ctx, RotatedRight(t2), ctx', t.left.left);
      Refocus(pool', root', ctx, RotatedRight(t2), InRight(t.left.left, k, kc, ctx),
              Branch(t.left.right, n, c, t.right));
    }
  }

  lemma RightChildRaised(pool: Pool, root: nat, ctx: Context, t: Tree, kc: Color, c: Color)
    requires At(pool, root, ctx, t) && t.Branch? && t.right.Branch?
    ensures t.node in pool && t.right.node in pool && t.right.node != t.node
    ensures
      var n, k := t.node, t.right.node;
      var pool2 := pool[k := pool[k].(color := kc)][n := pool[n].(color := c)];
      var ctx' := InRight(Branch(t.left, n, c, t.right.left), k, kc, ctx);
      && n in pool2 && pool2[n].right == k && Rotatable(pool2, n, k, pool2[k].left)
      && (forall pool', root' | LeftRotated(pool2, root, pool', root', n) ::
            && At(pool', root', ctx', t.right.right) && pool'.Keys == pool.Keys
            && At(pool', root', InLeft(ctx, k, kc, t.right.right), Branch(t.left, n, c, t.right.left)))
      && InOrder(Plug(ctx', t.right.right)) == InOrder(Plug(ctx, t))
      && InOrder(Plug(InLeft(ctx, k, kc, t.right.right), Branch(t.left, n, c, t.right.left))) == InOrder(Plug(ctx, t))
  {
    var n, k := t.node, t.right.node;
    RecoloredPair(pool, root, ctx, t, false, kc, c);
    var pool2 := pool[k := pool[k].(color := kc)][n := pool[n].(color := c)];
    var t2 := Branch(t.left, n, c, t.right.(color := kc));
    LeftRotation(pool2, root, ctx, t2);
    var ctx' := InRight(Branch(t.left, n, c, t.right.left), k, kc, ctx);
    assert Plug(ctx', t.right.right) == Plug(ctx, RotatedLeft(t2));
    SameOrder(ctx, t, RotatedLeft(t2));
    forall pool', root' | LeftRotated(pool2, root, pool', root', n)
      ensures At(pool', root', ctx', t.right.right)
      ensures At(pool', root', InLeft(ctx, k, kc, t.right.right), Branch(t.left, n, c, t.right.left))
    {
      Refocus(pool', root', ctx, RotatedLeft(t2), ctx', t.right.right);
      Refocus(pool', root', ctx, RotatedLeft(t2), InLeft(ctx, k, kc, t.right.right),
              Branch(t.left, n, c, t.right.left));
    }
  }

  // Rotating t's left child left, or its right child right, keeps the cut at t and the order.
  lemma LeftChildRotated(pool: Pool, root: nat, ctx: Context, t: Tree)
    requires At(pool, root, ctx, t) && t.Branch? && t.left.Branch? && t.left.right.Branch?
    ensures
      var k, t' := t.left.node, t.(left := RotatedLeft(t.left));
      && k in pool && t.left.right.node in pool && pool[k].right == t.left.right.node
      && Rotatable(pool, k, t.left.right.node, pool[t.left.right.node].left)
      && (forall pool', root' | LeftRotated(pool, root, pool', root', k) ::
            At(pool', root', ctx, t') && pool'.Keys == pool.Keys)
      && InOrder(Plug(ctx, t')) == InOrder(Plug(ctx, t))
  {
    var at, t' := InLeft(ctx, t.node, t.color, t.right), t.(left := RotatedLeft(t.left));
    Refocus(pool, root, ctx, t, at, t.left);
    LeftRotation(pool, root, at, t.left);
    SameOrder(ctx, t, t');
    forall pool', root' | LeftRotated(pool, root, pool', root', t.left.node)
      ensures At(pool', root', ctx, t')
    {
      Refocus(pool', root', at, t'.left, ctx, t');
    }
  }

  lemma RightChildRotated(pool: Pool, root: nat, ctx: Context, t: Tree)
    requires At(pool, root, ctx, t) && t.Branch? && t.right.Branch? && t.right.left.Branch?
    ensures
      var k, t' := t.right.node, t.(right := RotatedRight(t.right));
      && k in pool && t.right.left.node in pool && pool[k].left == t.right.left.node
      && Rotatable(pool, k, t.right.left.node, pool[t.right.left.node].right)
      && (forall pool', root' | RightRotated(pool, root, pool', root', k) ::
            At(pool', root', ctx, t') && pool'.Keys == pool.Keys)
      && InOrder(Plug(ctx, t')) == InOrder(Plug(ctx, t))
  {
    var at, t' := InRight(t.left, t.node, t.color, ctx), t.(right := RotatedRight(t.right));
    Refocus(pool, root, ctx, t, at, t.right);
    RightRotation(pool, root, at, t.right);
    SameOrder(ctx, t, t');
    forall pool', root' | RightRotated(pool, root, pool', root', t.right.node)
      ensures At(pool', root', ctx, t')
    {
      Refocus(pool', root', at, t'.right, ctx, t');
    }
  }

  // The state of the erasure loop: the subtree t is one black node short of what its surroundings need.
  ghost predicate Erasing(pool: Pool, root: nat, c: Cut) {
    && At(pool, root, c.ctx, c.t) && Fits(c.ctx, Black, c.h + 1)
    && (if RootColor(c.t).Red? then Balanced(Blacken(c.t), c.h + 1) else Balanced(c.t, c.h))
  }

  // Cutting one level further up, with the pointers seen from there.
  lemma CutAtParent(pool: Pool, root: nat, c: Cut)
    requires At(pool, root, c.ctx, c.t) && c.ctx != Top
    ensures
      var up, g, p, s := c.ctx.up, ParentTree(c), c.ctx.node, c.ctx.sibling;
      && At(pool, root, up, g) && Plug(up, g) == Plug(c.ctx, c.t)
      && p in pool && p != NIL && pool[p] == Node(ParentRef(up), c.ctx.color, Ref(g.left), Ref(g.right))
  {
    var up, g := c.ctx.up, ParentTree(c);
    Refocus(pool, root, c.ctx, c.t, up, g);
    Fields(pool, root, up, g);
  }

  // The sibling's inner child takes the sibling's place.
  lemma RightSiblingRaised(pool: Pool, root: nat, ctx: Context, t: Tree)
    requires At(pool, root, ctx, t) && t.Branch? && t.right.Branch? && t.right.left.Branch?
    ensures t.right.node in pool && t.right.left.node in pool && t.right.node != t.right.left.node
    ensures
      var s, k := t.right.node, t.right.left.node;
      var pool2 := pool[k := pool[k].(color := Black)][s := pool[s].(color := Red)];
      var t' := t.(right := Branch(t.right.left.left, k, Black, Branch(t.right.left.right, s, Red, t.right.right)));
      && s in pool2 && pool2[s].left == k && Rotatable(pool2, s, k, pool2[k].right)
      && (forall pool', root' | RightRotated(pool2, root, pool', root', s) ::
            At(pool', root', ctx, t') && pool'.Keys == pool.Keys)
      && InOrder(Plug(ctx, t')) == InOrder(Plug(ctx, t))
  {
    var s, k, at := t.right.node, t.right.left.node, InRight(t.left, t.node, t.color, ctx);
    Refocus(pool, root, ctx, t, at, t.right);
    LeftChildRaised(pool, root, at, t.right, Black, Red);
    var pool2 := pool[k := pool[k].(color := Black)][s := pool[s].(color := Red)];
    var t' := t.(right := Branch(t.right.left.left, k, Black, Branch(t.right.left.right, s, Red, t.right.right)));
    forall pool', root' | RightRotated(pool2, root, pool', root', s)
      ensures At(pool', root', ctx, t')
    {
      Refocus(pool', root', InLeft(at, k, Black, t'.right.right), t'.right.left, ctx, t');
    }
  }

  lemma LeftSiblingRaised(pool: Pool, root: nat, ctx: Context, t: Tree)
    requires At(pool, root, ctx, t) && t.Branch? && t.left.Branch? && t.left.right.Branch?
    ensures t.left.node in pool && t.left.right.node in pool && t.left.node != t.left.right.node
    ensures
      var s, k := t.left.node, t.left.right.node;
      var pool2 := pool[k := pool[k].(color := Black)][s := pool[s].(color := Red)];
      var t' := t.(left := Branch(Branch(t.left.left, s, Red, t.left.right.left), k, Black, t.left.right.right));
      && s in pool2 && pool2[s].right == k && Rotatable(pool2, s, k, pool2[k].left)
      && (forall pool', root' | LeftRotated(pool2, root, pool', root', s) ::
            At(pool', root', ctx, t') && pool'.Keys == pool.Keys)
      && InOrder(Plug(ctx, t')) == InOrder(Plug(ctx, t))
  {
    var s, k, at := t.left.node, t.left.right.node, InLeft(ctx, t.node, t.color, t.right);
    Refocus(pool, root, ctx, t, at, t.left);
    RightChildRaised(pool, root, at, t.left, Black, Red);
    var pool2 := pool[k := pool[k].(color := Black)][s := pool[s].(color := Red)];
    var t' := t.(left := Branch(Branch(t.left.left, s, Red, t.left.right.left), k, Black, t.left.right.right));
    forall pool', root' | LeftRotated(pool2, root, pool', root', s)
      ensures At(pool', root', ctx, t')
    {
      Refocus(pool', root', InRight(t'.left.left, k, Black, at), t'.left.right, ctx, t');
    }
  }

  // The sibling takes the parent's colour and place; parent and far nephew become black.
  lemma RightBorrowed(pool: Pool, root: nat, ctx: Context, t: Tree)
    requires At(pool, root, ctx, t) && t.Branch? && t.right.Branch? && t.right.right.Branch?
    ensures
      var n, s, d := t.node, t.right.node, t.right.right.node;
      && n in pool && s in pool && d in pool && n != s && n != d && s != d
      && var pool3 := pool[s := pool[s].(color := t.color)][n := pool[n].(color := Black)][d :=
          pool[d].(color := Black)];
      var t' := Branch(Branch(t.left, n, Black, t.right.left), s, t.color, Blacken(t.right.right));
      && n in pool3 && pool3[n].right == s && Rotatable(pool3, n, s, pool3[s].left)
      && (forall pool', root' | LeftRotated(pool3, root, pool', root', n) ::
            At(pool', root', Top, Plug(ctx, t')) && pool'.Keys == pool.Keys)
      && InOrder(Plug(ctx, t')) == InOrder(Plug(ctx, t))
  {
    var n, s, d := t.node, t.right.node, t.right.right.node;
    RotationPointers(pool, root, ctx, t, t.right, t.right.right);
    RecoloredPair(pool, root, ctx, t, false, t.color, Black);
    var pool2 := pool[s := pool[s].(color := t.color)][n := pool[n].(color := Black)];
    var t2 := Branch(t.left, n, Black, t.right.(color := t.color));
    var at := InRight(t.left, n, Black, ctx);
    Refocus(pool2, root, ctx, t2, at, t2.right);
    RecoloredRight(pool2, root, at, t2.right, Black);
    var pool3 := pool2[d := pool2[d].(color := Black)];
    var t3 := t2.(right := t2.right.(right := Blacken(t.right.right)));
    Refocus(pool3, root, at, t3.right, ctx, t3);
    LeftRotation(pool3, root, ctx, t3);
    SameOrder(ctx, t, RotatedLeft(t3));
    forall pool', root' | LeftRotated(pool3, root, pool', root', n)
      ensures At(pool', root', Top, Plug(ctx, RotatedLeft(t3)))
    {
      AtPlug(pool', root', ctx, RotatedLeft(t3));
    }
  }

  lemma LeftBorrowed(pool: Pool, root: nat, ctx: Context, t: Tree)
    requires At(pool, root, ctx, t) && t.Branch? && t.left.Branch? && t.left.left.Branch?
    ensures
      var n, s, d := t.node, t.left.node, t.left.left.node;
      && n in pool && s in pool && d in pool && n != s && n != d && s != d
      && var pool3 := pool[s := pool[s].(color := t.color)][n := pool[n].(color := Black)][d :=
          pool[d].(color := Black)];
      var t' := Branch(Blacken(t.left.left), s, t.color, Branch(t.left.right, n, Black, t.right));
      && n in pool3 && pool3[n].left == s && Rotatable(pool3, n, s, pool3[s].right)
      && (forall pool', root' | RightRotated(pool3, root, pool', root', n) ::
            At(pool', root', Top, Plug(ctx, t')) && pool'.Keys == pool.Keys)
      && InOrder(Plug(ctx, t')) == InOrder(Plug(ctx, t))
  {
    var n, s, d := t.node, t.left.node, t.left.left.node;
    RotationPointers(pool, root, ctx, t, t.left, t.left.left);
    RecoloredPair(pool, root, ctx, t, true, t.color, Black);
    var pool2 := pool[s := pool[s].(color := t.color)][n := pool[n].(color := Black)];
    var t2 := Branch(t.left.(color := t.color), n, Black, t.right);
    var at := InLeft(ctx, n, Black, t.right);
    Refocus(pool2, root, ctx, t2, at, t2.left);
    RecoloredLeft(pool2, root, at, t2.left, Black);
    var pool3 := pool2[d := pool2[d].(color := Black)];
    var t3 := t2.(left := t2.left.(left := Blacken(t.left.left)));
    Refocus(pool3, root, at, t3.left, ctx, t3);
    RightRotation(pool3, root, ctx, t3);
    SameOrder(ctx, t, RotatedRight(t3));
    forall pool', root' | RightRotated(pool3, root, pool', root', n)
      ensures At(pool', root', Top, Plug(ctx, RotatedRight(t3)))
    {
      AtPlug(pool', root', ctx, RotatedRight(t3));
    }
  }

  // The whole tree is balanced again.
  lemma Borrowed(pool: Pool, root: nat, ctx: Context, t: Tree, h: nat) returns (c: Cut)
    requires At(pool, root, Top, Plug(ctx, t)) && t.Branch?
    requires Balanced(t, if t.color.Black? then h + 2 else h + 1)
    requires Fits(ctx, t.color, if t.color.Black? then h + 2 else h + 1)
    ensures c.ctx == Top && c.t == Plug(ctx, t) && Erasing(pool, root, c) && Ref(c.t) == root
  {
    BalancedPlug(ctx, t, if t.color.Black? then h + 2 else h + 1);
    var k: nat :| Balanced(Plug(ctx, t), k);
    c := Cut(Top, Plug(ctx, t), k);
  }

  // The fields of the two nephews.
  lemma Nephews(pool: Pool, root: nat, ctx: Context, t: Tree, left: bool)
    requires At(pool, root, ctx, t) && t.Branch? && (if left then t.left else t.right).Branch?
    ensures
      var s := if left then t.left else t.right;
      && s.node in pool && s.node != NIL && pool[s.node] == Node(t.node, s.color, Ref(s.left), Ref(s.right))
      && (s.left.Branch? ==> s.left.node in pool && s.left.node != NIL && pool[s.left.node].color == s.left.color)
      && (s.right.Branch? ==> s.right.node in pool && s.right.node != NIL && pool[s.right.node].color == s.right.color)
  {
    var s := if left then t.left else t.right;
    var at := if left then InLeft(ctx, t.node, t.color, t.right) else InRight(t.left, t.node, t.color, ctx);
    Refocus(pool, root, ctx, t, at, s);
    Fields(pool, root, at, s);
  }

  // The subtree at the parent, when the left child is one black node short and the sibling is black.
  ghost predicate ShortLeft(up: Context, g: Tree, h: nat) {
    && g.Branch? && Balanced(g.left, h) && RootColor(g.left).Black?
    && g.right.Branch? && g.right.color.Black? && Balanced(g.right.left, h) && Balanced(g.right.right, h)
    && Fits(up, g.color, if g.color.Black? then h + 2 else h + 1)
  }

  ghost predicate ShortRight(up: Context, g: Tree, h: nat) {
    && g.Branch? && Balanced(g.right, h) && RootColor(g.right).Black?
    && g.left.Branch? && g.left.color.Black? && Balanced(g.left.left, h) && Balanced(g.left.right, h)
    && Fits(up, g.color, if g.color.Black? then h + 2 else h + 1)
  }

  lemma LeftShortage(up: Context, g: Tree, h: nat)
    requires g.Branch? && Balanced(g.left, h) && RootColor(g.left).Black?
    requires Balanced(g.right, h + 1) && RootColor(g.right).Black?
    requires Fits(up, g.color, if g.color.Black? then h + 2 else h + 1)
    ensures ShortLeft(up, g, h)
  {
  }

  lemma RightShortage(up: Context, g: Tree, h: nat)
    requires g.Branch? && Balanced(g.right, h) && RootColor(g.right).Black?
    requires Balanced(g.left, h + 1) && RootColor(g.left).Black?
    requires Fits(up, g.color, if g.color.Black? then h + 2 else h + 1)
    ensures ShortRight(up, g, h)
  {
  }

  // Both nephews black: the shortage moves up to the parent.
  lemma LeftRecolored(pool: Pool, root: nat, up: Context, g: Tree, h: nat) returns (c: Cut)
    requires ShortLeft(up, g, h) && RootColor(g.right.left).Black? && RootColor(g.right.right).Black?
    requires At(pool, root, up, g.(right := g.right.(color := Red)))
    ensures c.ctx == up && c.t == g.(right := g.right.(color := Red)) && Erasing(pool, root, c)
  {
    var t := g.(right := g.right.(color := Red));
    c := Cut(up, t, if g.color.Red? then h else h + 1);
    assert Balanced(t.right, h);
    if g.color.Red? { FitsBlack(up, h + 1); }
  }

  lemma RightRecolored(pool: Pool, root: nat, up: Context, g: Tree, h: nat) returns (c: Cut)
    requires ShortRight(up, g, h) && RootColor(g.left.left).Black? && RootColor(g.left.right).Black?
    requires At(pool, root, up, g.(left := g.left.(color := Red)))
    ensures c.ctx == up && c.t == g.(left := g.left.(color := Red)) && Erasing(pool, root, c)
  {
    var t := g.(left := g.left.(color := Red));
    c := Cut(up, t, if g.color.Red? then h else h + 1);
    assert Balanced(t.left, h);
    if g.color.Red? { FitsBlack(up, h + 1); }
  }

  // Only the near nephew red: after raising it the far nephew is red.
  lemma LeftRaised(up: Context, g: Tree, h: nat) returns (g': Tree)
    requires ShortLeft(up, g, h) && RootColor(g.right.left).Red? && RootColor(g.right.right).Black?
    ensures g' == g.(right := Branch(g.right.left.left, g.right.left.node, Black,
                                     Branch(g.right.left.right, g.right.node, Red, g.right.right)))
    ensures ShortLeft(up, g', h) && RootColor(g'.right.right).Red?
  {
    g' := g.(right := Branch(g.right.left.left, g.right.left.node, Black,
                             Branch(g.right.left.right, g.right.node, Red, g.right.right)));
    assert Balanced(g'.right.right, h);
  }

  lemma RightRaised(up: Context, g: Tree, h: nat) returns (g': Tree)
    requires ShortRight(up, g, h) && RootColor(g.left.right).Red? && RootColor(g.left.left).Black?
    ensures g' == g.(left := Branch(Branch(g.left.left, g.left.node, Red, g.left.right.left),
                                    g.left.right.node, Black, g.left.right.right))
    ensures ShortRight(up, g', h) && RootColor(g'.left.left).Red?
  {
    g' := g.(left := Branch(Branch(g.left.left, g.left.node, Red, g.left.right.left),
                            g.left.right.node, Black, g.left.right.right));
    assert Balanced(g'.left.left, h);
  }

  // A red far nephew makes up the shortage for good.
  lemma LeftBorrows(pool: Pool, root: nat, up: Context, g: Tree, h: nat) returns (c: Cut)
    requires ShortLeft(up, g, h) && RootColor(g.right.right).Red?
    requires
      var t := Branch(Branch(g.left, g.node, Black, g.right.left), g.right.node, g.color, Blacken(g.right.right));
      At(pool, root, Top, Plug(up, t))
    ensures Erasing(pool, root, c) && c.ctx == Top && Ref(c.t) == root
    ensures Plug(c.ctx, c.t) == Plug(up, Branch(Branch(g.left, g.node, Black, g.right.left), g.right.node, g.color,
                                                Blacken(g.right.right)))
  {
    var t := Branch(Branch(g.left, g.node, Black, g.right.left), g.right.node, g.color, Blacken(g.right.right));
    assert Balanced(t.left, h + 1) && Balanced(t.right, h + 1);
    c := Borrowed(pool, root, up, t, h);
  }

  lemma RightBorrows(pool: Pool, root: nat, up: Context, g: Tree, h: nat) returns (c: Cut)
    requires ShortRight(up, g, h) && RootColor(g.left.left).Red?
    requires
      var t := Branch(Blacken(g.left.left), g.left.node, g.color, Branch(g.left.right, g.node, Black, g.right));
      At(pool, root, Top, Plug(up, t))
    ensures Erasing(pool, root, c) && c.ctx == Top && Ref(c.t) == root
    ensures Plug(c.ctx, c.t) == Plug(up, Branch(Blacken(g.left.left), g.left.node, g.color,
                                                Branch(g.left.right, g.node, Black, g.right)))
  {
    var t := Branch(Blacken(g.left.left), g.left.node, g.color, Branch(g.left.right, g.node, Black, g.right));
    assert Balanced(t.left, h + 1) && Balanced(t.right, h + 1);
    c := Borrowed(pool, root, up, t, h);
  }

  // The short subtree has a sibling, so the parent's left pointer tells the side.
  lemma ErasingSide(pool: Pool, root: nat, c: Cut)
    requires Erasing(pool, root, c) && c.ctx != Top
    ensures c.ctx.node in pool && (pool[c.ctx.node].left == Ref(c.t) <==> c.ctx.InLeft?)
  {
    CutAtParent(pool, root, c);
    Fields(pool, root, c.ctx, c.t);
    Fields(pool, root, c.ctx.up, ParentTree(c));
    assert c.ctx.sibling.Branch?;
  }

  // Blackening the node at the cut ends the erasure: it is red or the root.
  lemma BlackNode(pool: Pool, root: nat, c: Cut) returns (t': Tree)
    requires Erasing(pool, root, c) && (RootColor(c.t).Red? || c.ctx == Top)
    ensures c.t.Branch? ==> c.t.node in pool && At(pool[c.t.node := pool[c.t.node].(color := Black)], root, Top, t')
    ensures c.t.Leaf? ==> At(pool, root, Top, t')
    ensures RedBlack(t') && InOrder(t') == InOrder(Plug(c.ctx, c.t))
  {
    t' := Plug(c.ctx, Blacken(c.t));
    SameOrder(c.ctx, c.t, Blacken(c.t));
    if c.t.Branch? {
      Recolored(pool, root, c.ctx, c.t, Black);
      AtPlug(pool[c.t.node := pool[c.t.node].(color := Black)], root, c.ctx, Blacken(c.t));
      if c.t.color.Red? {
        BalancedPlug(c.ctx, Blacken(c.t), c.h + 1);
      } else {
        assert Balanced(t', c.h);
      }
    } else {
      assert Balanced(t', c.h);
    }
  }

  // ----- taking a node out, and putting another in its place

  // Point the parent of n (or the root pointer) at m instead.
  function Relinked(pool: Pool, p: nat, n: nat, m: nat): Pool
    requires p != NIL ==> p in pool
  {
    if p == NIL then pool
    else if pool[p].left == n then pool[p := pool[p].(left := m)]
    else pool[p := pool[p].(right := m)]
  }

  function Reparented(pool: Pool, n: nat, p: nat): Pool
    requires n != NIL ==> n in pool
  {
    if n == NIL then pool else pool[n := pool[n].(parent := p)]
  }

  // Take out n, whose only child (or null) is k.
  function Unlinked(pool: Pool, n: nat, k: nat): Pool
    requires n in pool && (k != NIL ==> k in pool) && (pool[n].parent != NIL ==> pool[n].parent in pool)
  {
    Relinked(Reparented(pool, k, pool[n].parent), pool[n].parent, n, k)
  }

  // Put m in the place of n.
  function Replaced(pool: Pool, n: nat, m: nat): Pool
    requires n in pool && (pool[n].parent != NIL ==> pool[n].parent in pool)
    requires (pool[n].left != NIL ==> pool[n].left in pool) && (pool[n].right != NIL ==> pool[n].right in pool)
  {
    var node := pool[n];
    Reparented(Reparented(Relinked(pool, node.parent, n, m), node.left, m), node.right, m)[m := node]
  }

  lemma UnlinkedHeld(pool: Pool, root: nat, ctx: Context, t: Tree, k: Tree)
    requires At(pool, root, ctx, t) && t.Branch?
    requires (k == t.left && t.right == Leaf) || (k == t.right && t.left == Leaf)
    ensures t.node in pool && (k.Branch? ==> k.node in pool && k.node != NIL)
    ensures pool[t.node].parent == ParentRef(ctx) && (ctx != Top ==> ctx.node in pool)
    ensures At(Unlinked(pool, t.node, Ref(k)), if ctx == Top then Ref(k) else root, ctx, k)
    ensures Nodes(t) == Nodes(k) + {t.node} && t.node !in Nodes(k)
  {
    Fields(pool, root, ctx, t);
    Parts(pool, t, ParentRef(ctx));
    var pool' := Unlinked(pool, t.node, Ref(k));
    var root' := if ctx == Top then Ref(k) else root;
    assert ctx != Top ==> ctx.node in ContextNodes(ctx);
    if k.Branch? { assert k.node in Nodes(k); }
    HoldsRehung(pool, pool', k, t.node, ParentRef(ctx));
    SurroundsRedirected(pool, root, pool', root', ctx, t.node, Ref(k));
  }

  lemma ReplacedHeld(pool: Pool, root: nat, ctx: Context, t: Tree, m: nat)
    requires At(pool, root, ctx, t) && t.Branch?
    requires m != NIL && m in pool && m !in Nodes(t) && m !in ContextNodes(ctx)
    ensures t.node in pool && (pool[t.node].parent != NIL ==> pool[t.node].parent in pool)
    ensures (pool[t.node].left != NIL ==> pool[t.node].left in pool)
    ensures (pool[t.node].right != NIL ==> pool[t.node].right in pool)
    ensures At(Replaced(pool, t.node, m), if ctx == Top then m else root, ctx, t.(node := m))
  {
    Fields(pool, root, ctx, t);
    Parts(pool, t, ParentRef(ctx));
    var pool' := Replaced(pool, t.node, m);
    var root' := if ctx == Top then m else root;
    assert ctx != Top ==> ctx.node in ContextNodes(ctx);
    if t.left.Branch? { assert t.left.node in Nodes(t.left); }
    if t.right.Branch? { assert t.right.node in Nodes(t.right); }
    HoldsRehung(pool, pool', t.left, t.node, m);
    HoldsRehung(pool, pool', t.right, t.node, m);
    SurroundsRedirected(pool, root, pool', root', ctx, t.node, m);
    assert Nodes(t.(node := m)) == Nodes(t.left) + {m} + Nodes(t.right);
  }

  // A tree is not disturbed by changes to nodes outside it.
  lemma AtFrame(pool: Pool, pool': Pool, root: nat, ctx: Context, t: Tree)
    requires At(pool, root, ctx, t)
    requires forall n | n in pool && (n in Nodes(t) || n in ContextNodes(ctx)) :: n in pool' && pool'[n] == pool[n]
    ensures At(pool', root, ctx, t)
  {
    HoldsFrame(pool, pool', t, ParentRef(ctx));
    SurroundsFrame(pool, pool', root, ctx, Ref(t));
  }

  // What is left after a node of the given colour was taken out: still balanced if it was red, one black
  // node short at the cut if it was black.
  ghost predicate TakenOut(pool: Pool, root: nat, c: Cut, color: Color) {
    At(pool, root, c.ctx, c.t) && if color.Black? then Erasing(pool, root, c) else RedBlack(Plug(c.ctx, c.t))
  }

  // Taking out a node with at most one child leaves that child k in its place.
  lemma TakeOut(pool: Pool, root: nat, ctx: Context, t: Tree, k: Tree, h: nat) returns (c: Cut)
    requires t.Branch? && Balanced(t, h) && Fits(ctx, t.color, h)
    requires (k == t.left && t.right == Leaf) || (k == t.right && t.left == Leaf)
    requires At(pool, root, ctx, k)
    ensures c.ctx == ctx && c.t == k && TakenOut(pool, root, c, t.color)
  {
    if t.color.Black? {
      c := Cut(ctx, k, h - 1);
      if RootColor(k).Red? { assert Balanced(Blacken(k), h); }
    } else {
      c := Cut(ctx, k, h);
      FitsBlack(ctx, h);
      BalancedPlug(ctx, k, h);
    }
  }

  lemma Regroup(a: seq<nat>, l: seq<nat>, n: nat, r: seq<nat>, z: seq<nat>)
    ensures a + (l + [n] + r) + z == (a + l) + [n] + (r + z)
    ensures (a + l) + (r + z) == a + l + r + z
  {
  }

  // The order loses exactly the node at the cut.
  lemma OrderWithout(pool: Pool, root: nat, ctx: Context, t: Tree)
    requires At(pool, root, ctx, t) && t.Branch?
    ensures Without(InOrder(Plug(ctx, t)), t.node) == Before(ctx) + InOrder(t.left) + InOrder(t.right) + After(ctx)
  {
    InOrderPlug(ctx, t);
    BeforeNodes(ctx);
    InOrderNodes(t.left);
    Parts(pool, t, ParentRef(ctx));
    assert t.node in Nodes(t);
    Regroup(Before(ctx), InOrder(t.left), t.node, InOrder(t.right), After(ctx));
    WithoutMiddle(Before(ctx) + InOrder(t.left), t.node, InOrder(t.right) + After(ctx));
  }

  lemma OrderWithoutSingle(pool: Pool, root: nat, ctx: Context, t: Tree, k: Tree)
    requires At(pool, root, ctx, t) && t.Branch?
    requires (k == t.left && t.right == Leaf) || (k == t.right && t.left == Leaf)
    ensures Without(InOrder(Plug(ctx, t)), t.node) == InOrder(Plug(ctx, k))
  {
    OrderWithout(pool, root, ctx, t);
    InOrderPlug(ctx, k);
    EmptyPart(Before(ctx), InOrder(k), After(ctx));
  }

  lemma EmptyPart(a: seq<nat>, x: seq<nat>, z: seq<nat>)
    ensures a + x + [] + z == a + x + z && a + [] + x + z == a + x + z
  {
  }

  // A path that only goes left: nothing on it sorts before its end.
  ghost predicate Leftmost(path: Context) {
    path.Top? || (path.InLeft? && Leftmost(path.up))
  }

  lemma {:induction false} LeftmostBefore(path: Context)
    requires Leftmost(path)
    ensures Before(path) == []
  {
    if path != Top { LeftmostBefore(path.up); }
  }

  // The nodes of a closed path are those of the path and of what was plugged in.
  lemma {:induction false} PathNodes(path: Context, t: Tree)
    ensures Nodes(Plug(path, t)) == ContextNodes(path) + Nodes(t)
    decreases path
  {
    match path
    case Top =>
    case InLeft(up, n, c, s) => PathNodes(up, Branch(t, n, c, s));
    case InRight(s, n, c, up) => PathNodes(up, Branch(s, n, c, t));
  }

  lemma {:induction false} StackNodes(path: Context, base: Context)
    ensures ContextNodes(Stack(path, base)) == ContextNodes(path) + ContextNodes(base)
    decreases path
  {
    match path
    case Top =>
    case InLeft(up, _, _, _) => StackNodes(up, base);
    case InRight(_, _, _, up) => StackNodes(up, base);
  }

  // The root of a non-trivial path is not the node at its end, nor below it.
  lemma {:induction false} RootOnPath(path: Context, t: Tree)
    requires path != Top
    ensures Plug(path, t).Branch? && Plug(path, t).node in ContextNodes(path)
    decreases path
  {
    if path.up != Top {
      if path.InLeft? {
        RootOnPath(path.up, Branch(t, path.node, path.color, path.sibling));
      } else {
        RootOnPath(path.up, Branch(path.sibling, path.node, path.color, t));
      }
    }
  }

  // The nodes around old_, with their pointers, are different nodes.
  ghost predicate DistinctAround(pool: Pool, old_: nat) {
    && old_ in pool && old_ != NIL
    && var p, l, r := pool[old_].parent, pool[old_].left, pool[old_].right;
    && l in pool && r in pool && (p != NIL ==> p in pool) && l != NIL && r != NIL
    && l != old_ && l != r && r != old_ && pool[l].parent == old_ && pool[r].parent == old_
    && (p != NIL ==> p != old_ && p != l && p != r && (pool[p].left == old_ <==> pool[p].right != old_))
  }

  // So are those around its successor s.
  ghost predicate Distinct(pool: Pool, old_: nat, s: nat) {
    && DistinctAround(pool, old_) && s in pool && s != NIL && s != old_
    && var p, l, r, q, k := pool[old_].parent, pool[old_].left, pool[old_].right, pool[s].parent, pool[s].right;
    && q in pool && q != NIL && (k != NIL ==> k in pool) && pool[s].left == NIL && l != s
    && (q == old_ <==> r == s) && (q != old_ ==> pool[q].left == s && q != s && q != l && q != k)
    && (k != NIL ==> pool[k].parent == s && k != old_ && k != s && k != l && k != p && k != r)
    && (p != NIL ==> p != s && p != q)
  }

  lemma AroundIsDistinct(pool: Pool, root: nat, ctx: Context, t: Tree)
    requires At(pool, root, ctx, t) && t.Branch? && t.left.Branch? && t.right.Branch?
    ensures DistinctAround(pool, t.node)
    ensures pool[t.node] == Node(ParentRef(ctx), t.color, t.left.node, t.right.node)
  {
    RotationPointers(pool, root, ctx, t, t.left, t.left.left);
    RotationPointers(pool, root, ctx, t, t.right, t.right.left);
    Fields(pool, root, ctx, t);
  }

  // The way to the leftmost node turns left.
  lemma LeftmostTurns(path: Context)
    requires Leftmost(path)
    ensures path != Top ==> path.InLeft?
  {
  }

  // The pointers touched when t's node gives its place to the leftmost node of its right subtree.
  lemma SuccessorPointers(pool: Pool, root: nat, ctx: Context, t: Tree, path: Context, cur: Tree)
    requires At(pool, root, ctx, t) && t.Branch? && t.left.Branch? && t.right.Branch?
    requires At(pool, root, Stack(path, InRight(t.left, t.node, t.color, ctx)), cur)
    requires cur.Branch? && cur.left == Leaf && Leftmost(path) && Plug(path, cur) == t.right
    ensures Distinct(pool, t.node, cur.node) && pool[t.node].color == t.color && pool[t.node].parent == ParentRef(ctx)
    ensures pool[cur.node].color == cur.color && pool[cur.node].right == Ref(cur.right)
    ensures pool[cur.node].parent == if path == Top then t.node else path.node
    ensures path != Top ==> path.node != t.node
  {
    hide At, Holds, Surrounds, Nodes, ContextNodes, Plug, Leftmost, DistinctAround;
    LeftmostTurns(path);
    var base := InRight(t.left, t.node, t.color, ctx);
    AroundIsDistinct(pool, root, ctx, t);
    Fields(pool, root, Stack(path, base), cur);
    SuccessorApart(pool, root, ctx, t, path, cur);
    if path != Top { assert Stack(path, base).InLeft?; }
  }

  lemma SuccessorApart(pool: Pool, root: nat, ctx: Context, t: Tree, path: Context, cur: Tree)
    requires At(pool, root, ctx, t) && t.Branch? && t.left.Branch? && t.right.Branch?
    requires At(pool, root, Stack(path, InRight(t.left, t.node, t.color, ctx)), cur)
    requires cur.Branch? && Plug(path, cur) == t.right
    ensures
      var old_, p, l, r, s, k, q := t.node, ParentRef(ctx), t.left.node, t.right.node, cur.node, Ref(cur.right),
          ParentRef(path);
      && l != s && s != old_ && l != r && (ctx != Top ==> p != s && p != l && p != r)
      && (k != NIL ==> k != old_ && k != s && k != l && (ctx != Top ==> k != p) && k != r)
      && (path == Top ==> r == s)
      && (path != Top ==> q != old_ && q != s && q != l && q != k && r != s && (ctx != Top ==> q != p))
  {
    Parts(pool, t, ParentRef(ctx));
    PathNodes(path, cur);
    StackNodes(path, InRight(t.left, t.node, t.color, ctx));
    var ps := ContextNodes(path);
    assert t.left.node in Nodes(t.left) && t.right.node in Nodes(t.right) && cur.node in Nodes(cur);
    if cur.right.Branch? {
      assert cur.right.node in Nodes(cur.right);
      Parts(pool, cur, ParentRef(Stack(path, InRight(t.left, t.node, t.color, ctx))));
    }
    if ctx != Top { assert ctx.node in ContextNodes(ctx) && ctx.node !in Nodes(t); }
    if path != Top {
      RootOnPath(path, cur);
      assert path.node in ps && t.right.node in ps;
    }
  }

  // The memory after the successor s took the place of old_: first s, with only child k, is taken out, then
  // it replaces old_. The stale fields of old_ do not matter.
  ghost predicate Succeeded(pool: Pool, root: nat, pool': Pool, root': nat, old_: nat, s: nat, k: nat)
  {
    && old_ in pool && s in pool && (k != NIL ==> k in pool) && (pool[s].parent != NIL ==> pool[s].parent in pool)
    && var a := Unlinked(pool, s, k);
    && (a[old_].parent != NIL ==> a[old_].parent in pool)
    && (a[old_].left != NIL ==> a[old_].left in pool) && (a[old_].right != NIL ==> a[old_].right in pool)
    && var b := Replaced(a, old_, s);
    && pool'.Keys == pool.Keys && root' == (if pool[old_].parent == NIL then s else root)
    && forall n | n in pool && n != old_ :: pool'[n] == b[n]
  }

  // Taking the successor out leaves t without it.
  lemma SuccessorUnlinked(pool: Pool, root: nat, ctx: Context, t: Tree, path: Context, cur: Tree) returns (t1: Tree)
    requires At(pool, root, ctx, t) && t.Branch? && t.left.Branch? && t.right.Branch?
    requires At(pool, root, Stack(path, InRight(t.left, t.node, t.color, ctx)), cur)
    requires cur.Branch? && cur.left == Leaf && Plug(path, cur) == t.right
    ensures t1 == t.(right := Plug(path, cur.right))
    ensures cur.node in pool && cur.node != NIL && (cur.right.Branch? ==> cur.right.node in pool)
    ensures pool[cur.node].parent != NIL ==> pool[cur.node].parent in pool
    ensures At(Unlinked(pool, cur.node, Ref(cur.right)), root, ctx, t1)
    ensures cur.node !in Nodes(t1) && cur.node !in ContextNodes(ctx)
  {
    var base := InRight(t.left, t.node, t.color, ctx);
    UnlinkedHeld(pool, root, Stack(path, base), cur, cur.right);
    PlugStack(path, base, cur.right);
    t1 := t.(right := Plug(path, cur.right));
    Refocus(Unlinked(pool, cur.node, Ref(cur.right)), root, Stack(path, base), cur.right, ctx, t1);
    Fields(pool, root, Stack(path, base), cur);
    StackNodes(path, base);
    PathNodes(path, cur.right);
  }

  // Then the tree is the old one without the successor, with the successor in the place of t's node.
  lemma SucceededHeld(pool: Pool, root: nat, pool': Pool, root': nat, ctx: Context, t: Tree, path: Context, cur: Tree)
    requires At(pool, root, ctx, t) && t.Branch? && t.left.Branch? && t.right.Branch?
    requires At(pool, root, Stack(path, InRight(t.left, t.node, t.color, ctx)), cur)
    requires cur.Branch? && cur.left == Leaf && Leftmost(path) && Plug(path, cur) == t.right
    requires Succeeded(pool, root, pool', root', t.node, cur.node, Ref(cur.right))
    ensures At(pool', root', Stack(path, InRight(t.left, cur.node, t.color, ctx)), cur.right)
  {
    hide At, Holds, Surrounds;
    var t1 := SuccessorUnlinked(pool, root, ctx, t, path, cur);
    var a := Unlinked(pool, cur.node, Ref(cur.right));
    Fields(a, root, ctx, t1);
    Fields(pool, root, ctx, t);
    ReplacedHeld(a, root, ctx, t1, cur.node);
    var b, t2 := Replaced(a, t.node, cur.node), t1.(node := cur.node);
    NodeIsOnce(a, root, ctx, t1);
    AtFrame(b, pool', root', ctx, t2);
    PlugStack(path, InRight(t.left, cur.node, t.color, ctx), cur.right);
    Refocus(pool', root', ctx, t2, Stack(path, InRight(t.left, cur.node, t.color, ctx)), cur.right);
  }

  lemma NodeIsOnce(pool: Pool, root: nat, ctx: Context, t: Tree)
    requires At(pool, root, ctx, t) && t.Branch?
    ensures t.node !in Nodes(t.left) && t.node !in Nodes(t.right) && t.node !in ContextNodes(ctx)
  {
    Parts(pool, t, ParentRef(ctx));
    assert t.node in Nodes(t);
  }

  // The cut left by the successor: the order loses the erased node, and what is plugged in fits.
  lemma SuccessorOrder(pool: Pool, root: nat, ctx: Context, t: Tree, path: Context, cur: Tree) returns (c: Cut)
    requires At(pool, root, ctx, t) && t.Branch? && t.left.Branch? && t.right.Branch? && RedBlack(Plug(ctx, t))
    requires cur.Branch? && cur.left == Leaf && Leftmost(path) && Plug(path, cur) == t.right
    ensures c.ctx == Stack(path, InRight(t.left, cur.node, t.color, ctx)) && c.t == cur.right
    ensures ParentRef(c.ctx) == if path == Top then cur.node else path.node
    ensures Fits(c.ctx, cur.color, if cur.color.Black? then c.h + 1 else c.h)
    ensures Balanced(cur, if cur.color.Black? then c.h + 1 else c.h)
    ensures InOrder(Plug(c.ctx, c.t)) == Without(InOrder(Plug(ctx, t)), t.node)
  {
    var base, base' := InRight(t.left, t.node, t.color, ctx), InRight(t.left, cur.node, t.color, ctx);
    PlugStack(path, base, cur);
    var h := CutBalanced(Stack(path, base), cur);
    FitsRenamed(path, t.left, t.node, cur.node, t.color, ctx, cur.color, h);
    c := Cut(Stack(path, base'), cur.right, if cur.color.Black? then h - 1 else h);
    OrderWithout(pool, root, ctx, t);
    PlugStack(path, base', cur.right);
    InOrderPlug(ctx, Branch(t.left, cur.node, t.color, Plug(path, cur.right)));
    InOrderPlug(path, cur);
    InOrderPlug(path, cur.right);
    LeftmostBefore(path);
    SuccessorRegroup(Before(ctx), InOrder(t.left), cur.node, InOrder(cur.right), After(path), After(ctx));
  }

  lemma SuccessorRegroup(a: seq<nat>, l: seq<nat>, n: nat, r: seq<nat>, p: seq<nat>, z: seq<nat>)
    ensures a + (l + [n] + ([] + r + p)) + z == a + l + ([] + ([] + [n] + r) + p) + z
  {
  }

  lemma SuccessorTakenOut(pool: Pool, root: nat, c: Cut, cur: Tree)
    requires At(pool, root, c.ctx, c.t) && cur.Branch? && cur.left == Leaf && c.t == cur.right
    requires Fits(c.ctx, cur.color, if cur.color.Black? then c.h + 1 else c.h)
    requires Balanced(cur, if cur.color.Black? then c.h + 1 else c.h)
    ensures TakenOut(pool, root, c, cur.color)
  {
    if cur.color.Red? {
      FitsBlack(c.ctx, c.h);
      BalancedPlug(c.ctx, c.t, c.h);
    } else if RootColor(c.t).Red? {
      assert Balanced(Blacken(c.t), c.h + 1);
    }
  }

  // The updates below the erased node, in the order of osi_erase, when s is not its child.
  function DeepSplice(pool: Pool, s: nat, q: nat, k: nat, r: nat): Pool
    requires s in pool && q in pool && r in pool && (k != NIL ==> k in pool)
  {
    var a := Reparented(pool, k, q);
    var b := a[q := a[q].(left := k)];
    var c := b[s := b[s].(right := r)];
    c[r := c[r].(parent := s)]
  }

  // Relinking the parent leaves the other nodes around old_ and s alone.
  lemma RelinkedKeeps(pool: Pool, old_: nat, s: nat)
    requires Distinct(pool, old_, s)
    ensures pool[old_].parent != NIL ==> pool[old_].parent in pool
    ensures
      var pool1 := Relinked(pool, pool[old_].parent, old_, s);
      var l, r, q, k := pool[old_].left, pool[old_].right, pool[s].parent, pool[s].right;
      && pool1.Keys == pool.Keys && old_ in pool && s in pool && l in pool && r in pool && q in pool && (k != NIL ==>
          k in pool)
      && pool1[old_] == pool[old_] && pool1[s] == pool[s] && pool1[l] == pool[l] && pool1[r] == pool[r] &&
         pool1[q] == pool[q]
      && l != s && l != old_ && l != r && r != old_ && s != old_
      && (q != old_ ==> q != s && q != l && q != k && r != s && k != s && k != r && k != old_ && k != l)
  {
  }

  // The updates in the order of osi_erase come to the same as taking out and replacing.
  lemma DirectSpliced(pool: Pool, root: nat, pool1: Pool, pool': Pool, root': nat, old_: nat, s: nat)
    requires Distinct(pool, old_, s) && pool[s].parent == old_
    requires pool1 == Relinked(pool, pool[old_].parent, old_, s)
    requires root' == if pool[old_].parent == NIL then s else root
    requires
      var n := pool[old_];
      && s in pool1 && n.left in pool1
      && pool' == pool1[s := Node(n.parent, n.color, n.left, pool1[s].right)][n.left := pool1[n.left].(parent := s)]
    ensures Succeeded(pool, root, pool', root', old_, s, pool[s].right)
  {
    var n, k := pool[old_], pool[s].right;
    var a := Unlinked(pool, s, k);
    assert a == Reparented(pool, k, old_)[old_ := n.(right := k)];
    var b := Replaced(a, old_, s);
    forall m | m in pool && m != old_ ensures pool'[m] == b[m] { }
  }

  lemma DeepSpliced(pool: Pool, root: nat, pool1: Pool, pool': Pool, root': nat, old_: nat, s: nat)
    requires Distinct(pool, old_, s) && pool[s].parent != old_
    requires pool1 == Relinked(pool, pool[old_].parent, old_, s)
    requires root' == if pool[old_].parent == NIL then s else root
    requires
      var n := pool[old_];
      && s in pool1 && n.left in pool1 && n.right in pool1 && pool[s].parent in pool1
      && (pool[s].right != NIL ==> pool[s].right in pool1)
      && var pool2 := DeepSplice(pool1, s, pool[s].parent, pool[s].right, n.right);
      pool' == pool2[s := Node(n.parent, n.color, n.left, pool2[s].right)][n.left := pool2[n.left].(parent := s)]
    ensures Succeeded(pool, root, pool', root', old_, s, pool[s].right)
  {
    RelinkedKeeps(pool, old_, s);
    var n, q, k := pool[old_], pool[s].parent, pool[s].right;
    var a := Unlinked(pool, s, k);
    assert a == var e := Reparented(pool, k, q); e[q := e[q].(left := k)];
    assert a[old_] == n;
    var b := Replaced(a, old_, s);
    forall m | m in pool && m != old_ ensures pool'[m] == b[m] { }
  }

  // ----- stepping

  lemma {:induction false} OrderDistinct(pool: Pool, t: Tree, p: nat)
    requires Holds(pool, t, p)
    ensures forall i, j | 0 <= i < j < |InOrder(t)| :: InOrder(t)[i] != InOrder(t)[j]
    ensures NIL !in InOrder(t)
  {
    if t.Branch? {
      OrderDistinct(pool, t.left, t.node);
      OrderDistinct(pool, t.right, t.node);
      InOrderNodes(t.left);
      InOrderNodes(t.right);
      forall i, j | 0 <= i < j < |InOrder(t)| ensures InOrder(t)[i] != InOrder(t)[j] {
        var l := |InOrder(t.left)|;
        assert i < l ==> InOrder(t)[i] == InOrder(t.left)[i] && InOrder(t)[i] in Nodes(t.left);
        assert j > l ==> InOrder(t)[j] == InOrder(t.right)[j - l - 1] && InOrder(t)[j] in Nodes(t.right);
      }
    }
  }

  // next is the node after n in the order s, or null; prev the one before.
  ghost predicate IsNext(s: seq<nat>, n: nat, next: nat) {
    exists a, b :: s == a + [n] + b && next == if b == [] then NIL else b[0]
  }

  ghost predicate IsPrev(s: seq<nat>, n: nat, prev: nat) {
    exists a, b :: s == a + [n] + b && prev == if a == [] then NIL else a[|a| - 1]
  }

  lemma ShowNext(s: seq<nat>, a: seq<nat>, n: nat, b: seq<nat>, next: nat)
    requires s == a + [n] + b && next == if b == [] then NIL else b[0]
    ensures IsNext(s, n, next)
  {
  }

  lemma ShowPrev(s: seq<nat>, a: seq<nat>, n: nat, b: seq<nat>, prev: nat)
    requires s == a + [n] + b && prev == if a == [] then NIL else a[|a| - 1]
    ensures IsPrev(s, n, prev)
  {
  }

  // In an order without repetitions the next node is the one at the next index.
  lemma NextIndex(s: seq<nat>, k: nat, next: nat)
    requires forall i, j | 0 <= i < j < |s| :: s[i] != s[j]
    requires k < |s| && IsNext(s, s[k], next)
    ensures next == if k + 1 < |s| then s[k + 1] else NIL
  {
    var a, b :| s == a + [s[k]] + b && next == if b == [] then NIL else b[0];
    assert s[|a|] == s[k];
    assert |a| == k;
  }

  // No node of a tree is its own parent (OSI_EMPTY_NODE marks nodes that are in no tree).
  lemma ParentIsOther(pool: Pool, root: nat, ctx: Context, t: Tree)
    requires At(pool, root, ctx, t) && t.Branch?
    ensures t.node in pool && pool[t.node].parent != t.node
  {
    Fields(pool, root, ctx, t);
    assert t.node in Nodes(t);
    if ctx != Top { assert ctx.node in ContextNodes(ctx); }
  }

  // A new red leaf hangs where the null pointer was.
  lemma LinkedHeld(pool: Pool, root: nat, pool': Pool, root': nat, ctx: Context, n: nat)
    requires At(pool, root, ctx, Leaf) && n != NIL && n !in pool
    requires n in pool' && pool'[n] == Node(ParentRef(ctx), Red, NIL, NIL)
    requires Redirected(pool, root, pool', root', ctx, n)
    requires forall m | m in pool && m != ParentRef(ctx) :: m in pool' && pool'[m] == pool[m]
    ensures At(pool', root', ctx, Branch(Leaf, n, Red, Leaf))
  {
    SurroundsNodes(pool, root, ctx, NIL);
    SurroundsRedirected(pool, root, pool', root', ctx, NIL, n);
  }

  class OsiRoot {
    var osiNode: nat           // the root pointer
    var pool: Pool             // the memory the nodes live in
    ghost var tree: Tree       // the tree the memory holds

    ghost predicate Valid()
      reads this
    {
      At(pool, osiNode, Top, tree) && RedBlack(tree)
    }

    constructor ()
      ensures Valid() && tree == Leaf && pool == map[]
    {
      osiNode, pool, tree := NIL, map[], Leaf;
      new;
      assert Balanced(tree, 0);
    }

    method SetParent(n: nat, p: nat)
      requires n in pool
      modifies this`pool
      ensures pool == old(pool)[n := old(pool)[n].(parent := p)]
      ensures pool.Keys == old(pool.Keys)
    {
      pool := pool[n := pool[n].(parent := p)];
    }

    method SetLeft(n: nat, l: nat)
      requires n in pool
      modifies this`pool
      ensures pool == old(pool)[n := old(pool)[n].(left := l)]
      ensures pool.Keys == old(pool.Keys)
    {
      pool := pool[n := pool[n].(left := l)];
    }

    method SetRight(n: nat, r: nat)
      requires n in pool
      modifies this`pool
      ensures pool == old(pool)[n := old(pool)[n].(right := r)]
      ensures pool.Keys == old(pool.Keys)
    {
      pool := pool[n := pool[n].(right := r)];
    }

    method SetColor(n: nat, c: Color)
      requires n in pool
      modifies this`pool
      ensures pool == old(pool)[n := old(pool)[n].(color := c)]
      ensures pool.Keys == old(pool.Keys)
    {
      pool := pool[n := pool[n].(color := c)];
    }

    method RotateLeft(node: nat)
      requires node in pool && pool[node].right in pool
      requires Rotatable(pool, node, pool[node].right, pool[pool[node].right].left)
      modifies this`pool, this`osiNode
      ensures LeftRotated(old(pool), old(osiNode), pool, osiNode, node)
    {
      var right := pool[node].right;
      var parent := pool[node].parent;

      SetRight(node, pool[right].left);
      if pool[right].left != NIL {
        SetParent(pool[right].left, node);
      }
      SetLeft(right, node);
      SetParent(right, parent);
      if parent != NIL {
        if node == pool[parent].left {
          SetLeft(parent, right);
        } else {
          SetRight(parent, right);
        }
      } else {
        osiNode := right;
      }
      SetParent(node, right);
    }

    method RotateRight(node: nat)
      requires node in pool && pool[node].left in pool
      requires Rotatable(pool, node, pool[node].left, pool[pool[node].left].right)
      modifies this`pool, this`osiNode
      ensures RightRotated(old(pool), old(osiNode), pool, osiNode, node)
    {
      var left := pool[node].left;
      var parent := pool[node].parent;

      SetLeft(node, pool[left].right);
      if pool[left].right != NIL {
        SetParent(pool[left].right, node);
      }
      SetRight(left, node);
      SetParent(left, parent);
      if parent != NIL {
        if node == pool[parent].right {
          SetRight(parent, left);
        } else {
          SetLeft(parent, left);
        }
      } else {
        osiNode := left;
      }
      SetParent(node, left);
    }

    // One turn of the loop of osi_insert_color when the parent is the grandparent's left child.
    method InsertColorLeft(node0: nat, parent0: nat, gparent: nat, ghost c: Cut) returns (node: nat, ghost c': Cut)
      requires Inserting(pool, osiNode, c) && node0 == c.t.node && c.ctx != Top && c.ctx.color.Red?
      requires parent0 == c.ctx.node
      requires parent0 in pool && gparent == pool[parent0].parent && gparent in pool && pool[gparent].left == parent0
      modifies this`pool, this`osiNode
      ensures Inserting(pool, osiNode, c') && node == c'.t.node && Depth(c'.ctx) < Depth(c.ctx)
      ensures InOrder(Plug(c'.ctx, c'.t)) == InOrder(Plug(c.ctx, c.t))
      ensures pool.Keys == old(pool.Keys)
    {
      hide At, Holds, Surrounds, Nodes, ContextNodes, Rotatable, LeftRotated, RightRotated, InOrder, Plug;
      node := node0;
      var parent := parent0;
      Parents(pool, osiNode, c);
      ghost var up, sub := c.ctx.up, ParentTree(c);
      ghost var top, g, t := up.up, Branch(sub, gparent, Black, up.sibling), c.t;
      var uncle := pool[gparent].right;
      if uncle != NIL && pool[uncle].color.Red? {
        Flipped(pool, osiNode, top, g);
        SetColor(uncle, Black);
        SetColor(parent, Black);
        SetColor(gparent, Red);
        node := gparent;
        c' := Cut(top, Branch(Blacken(sub), gparent, Red, Blacken(up.sibling)), c.h + 1);
        SameOrder(top, g, c'.t);
        assert Balanced(c'.t, c'.h);
      } else {
        if pool[parent].right == node {
          LeftChildRotated(pool, osiNode, top, g);
          RotateLeft(parent);
          parent, node := node, parent;
          sub := RotatedLeft(sub);
          g, t := g.(left := sub), sub.left;
        }
        LeftChildRaised(pool, osiNode, top, g, Black, Red);
        SetColor(parent, Black);
        SetColor(gparent, Red);
        RotateRight(gparent);
        c' := Cut(InLeft(top, parent, Black, Branch(sub.right, gparent, Red, up.sibling)), t, c.h);
        assert Balanced(c'.t, c'.h) && Fits(c'.ctx, Black, c'.h);
      }
    }

    // One turn of the loop of osi_insert_color when the parent is the grandparent's right child.
    method InsertColorRight(node0: nat, parent0: nat, gparent: nat, ghost c: Cut) returns (node: nat, ghost c': Cut)
      requires Inserting(pool, osiNode, c) && node0 == c.t.node && c.ctx != Top && c.ctx.color.Red?
      requires parent0 == c.ctx.node
      requires parent0 in pool && gparent == pool[parent0].parent && gparent in pool && pool[gparent].right == parent0
      modifies this`pool, this`osiNode
      ensures Inserting(pool, osiNode, c') && node == c'.t.node && Depth(c'.ctx) < Depth(c.ctx)
      ensures InOrder(Plug(c'.ctx, c'.t)) == InOrder(Plug(c.ctx, c.t))
      ensures pool.Keys == old(pool.Keys)
    {
      hide At, Holds, Surrounds, Nodes, ContextNodes, Rotatable, LeftRotated, RightRotated, InOrder, Plug;
      node := node0;
      var parent := parent0;
      Parents(pool, osiNode, c);
      ghost var up, sub := c.ctx.up, ParentTree(c);
      ghost var top, g, t := up.up, Branch(up.sibling, gparent, Black, sub), c.t;
      var uncle := pool[gparent].left;
      if uncle != NIL && pool[uncle].color.Red? {
        Flipped(pool, osiNode, top, g);
        SetColor(uncle, Black);
        SetColor(parent, Black);
        SetColor(gparent, Red);
        node := gparent;
        c' := Cut(top, Branch(Blacken(up.sibling), gparent, Red, Blacken(sub)), c.h + 1);
        SameOrder(top, g, c'.t);
        assert Balanced(c'.t, c'.h);
      } else {
        if pool[parent].left == node {
          RightChildRotated(pool, osiNode, top, g);
          RotateRight(parent);
          parent, node := node, parent;
          sub := RotatedRight(sub);
          g, t := g.(right := sub), sub.right;
        }
        RightChildRaised(pool, osiNode, top, g, Black, Red);
        SetColor(parent, Black);
        SetColor(gparent, Red);
        RotateLeft(gparent);
        c' := Cut(InRight(Branch(up.sibling, gparent, Red, sub.left), parent, Black, top), t, c.h);
        assert Balanced(c'.t, c'.h) && Fits(c'.ctx, Black, c'.h);
      }
    }

    method InsertColor(node0: nat, ghost c0: Cut) returns (ghost t': Tree)
      requires Inserting(pool, osiNode, c0) && node0 == c0.t.node
      modifies this`pool, this`osiNode
      ensures At(pool, osiNode, Top, t') && RedBlack(t')
      ensures InOrder(t') == InOrder(Plug(c0.ctx, c0.t))
      ensures pool.Keys == old(pool.Keys)
    {
      hide At, Holds, Surrounds, Nodes, ContextNodes;
      var node := node0;
      ghost var c := c0;
      Fields(pool, osiNode, c.ctx, c.t);
      var parent := pool[node].parent;
      while parent != NIL && pool[parent].color.Red?
        invariant Inserting(pool, osiNode, c) && node == c.t.node && parent == ParentRef(c.ctx)
        invariant InOrder(Plug(c.ctx, c.t)) == InOrder(Plug(c0.ctx, c0.t))
        invariant parent != NIL ==> parent in pool && c.ctx != Top && pool[parent].color == c.ctx.color
        invariant parent == NIL ==> c.ctx == Top
        invariant pool.Keys == old(pool.Keys)
        decreases Depth(c.ctx)
      {
        Parents(pool, osiNode, c);
        ghost var up, sub := c.ctx.up, ParentTree(c);
        var gparent := pool[parent].parent;
        if parent == pool[gparent].left {
          node, c := InsertColorLeft(node, parent, gparent, c);
        } else {
          node, c := InsertColorRight(node, parent, gparent, c);
        }
        Fields(pool, osiNode, c.ctx, c.t);
        parent := pool[node].parent;
      }
      t' := BlackRoot(pool, osiNode, c.ctx, c.t, c.h);
      SetColor(osiNode, Black);
    }

    // One turn of the loop of __osi_erase_color when the short subtree is its parent's left child:
    // first the statements that make a red sibling black.
    method EraseColorLeft(node0: nat, parent0: nat, ghost c: Cut) returns (node: nat, parent: nat, ghost c': Cut)
      requires Erasing(pool, osiNode, c) && RootColor(c.t).Black? && c.ctx.InLeft?
      requires node0 == Ref(c.t) && parent0 == c.ctx.node
      modifies this`pool, this`osiNode
      ensures Erasing(pool, osiNode, c') && node == Ref(c'.t) && parent == ParentRef(c'.ctx)
      ensures Depth(c'.ctx) < Depth(c.ctx) || (Depth(c'.ctx) == Depth(c.ctx) && RootColor(c'.t).Red?)
      ensures InOrder(Plug(c'.ctx, c'.t)) == InOrder(Plug(c.ctx, c.t))
      ensures pool.Keys == old(pool.Keys)
    {
      hide At, Holds, Surrounds, Nodes, ContextNodes, Rotatable, LeftRotated, RightRotated, InOrder, Plug;
      CutAtParent(pool, osiNode, c);
      ghost var up, g := c.ctx.up, ParentTree(c);
      Fields(pool, osiNode, up, g);
      var other := pool[parent0].right;
      if pool[other].color.Red? {
        RightChildRaised(pool, osiNode, up, g, Black, Red);
        SetColor(other, Black);
        SetColor(parent0, Red);
        RotateLeft(parent0);
        up := InLeft(up, g.right.node, Black, g.right.right);
        g := Branch(c.t, parent0, Red, g.right.left);
        Fields(pool, osiNode, up, g);
        other := pool[parent0].right;
      }
      LeftShortage(up, g, c.h);
      node, parent, c' := EraseColorLeftBlack(parent0, other, up, g, c.h);
    }

    // The rest of the turn, with a black sibling.
    method EraseColorLeftBlack(parent0: nat, other0: nat, ghost up: Context, ghost g0: Tree, ghost h: nat)
      returns (node: nat, parent: nat, ghost c': Cut)
      requires At(pool, osiNode, up, g0) && ShortLeft(up, g0, h) && g0.node == parent0 && g0.right.node == other0
      modifies this`pool, this`osiNode
      ensures Erasing(pool, osiNode, c') && node == Ref(c'.t) && parent == ParentRef(c'.ctx)
      ensures Depth(c'.ctx) <= Depth(up) && (g0.color.Red? ==> RootColor(c'.t).Red? || c'.ctx == Top)
      ensures InOrder(Plug(c'.ctx, c'.t)) == InOrder(Plug(up, g0))
      ensures pool.Keys == old(pool.Keys)
    {
      hide At, Holds, Surrounds, Nodes, ContextNodes, Rotatable, LeftRotated, RightRotated, InOrder, Plug, Balanced,
           Fits, Erasing;
      parent := parent0;
      var other := other0;
      ghost var g := g0;
      Fields(pool, osiNode, up, g);
      Nephews(pool, osiNode, up, g, false);
      if (pool[other].left == NIL || pool[pool[other].left].color.Black?) &&
         (pool[other].right == NIL || pool[pool[other].right].color.Black?) {
        RecoloredRight(pool, osiNode, up, g, Red);
        SetColor(other, Red);
        g := g.(right := g.right.(color := Red));
        Fields(pool, osiNode, up, g);
        node := parent;
        parent := pool[node].parent;
        c' := LeftRecolored(pool, osiNode, up, g0, h);
        SameOrder(up, g0, g);
      } else {
        if pool[other].right == NIL || pool[pool[other].right].color.Black? {
          other, g := EraseColorLeftRaise(parent, other, up, g, h);
        }
        node, c' := EraseColorLeftBorrow(parent, other, up, g, h);
        parent := NIL;
      }
    }

    // The statements that make the far nephew red when only the near one is.
    method EraseColorLeftRaise(parent: nat, other0: nat, ghost up: Context, ghost g0: Tree, ghost h: nat)
      returns (other: nat, ghost g: Tree)
      requires At(pool, osiNode, up, g0) && ShortLeft(up, g0, h)
      requires RootColor(g0.right.left).Red? && RootColor(g0.right.right).Black?
      requires g0.node == parent && g0.right.node == other0
      modifies this`pool, this`osiNode
      ensures At(pool, osiNode, up, g) && ShortLeft(up, g, h) && RootColor(g.right.right).Red?
      ensures g.node == parent && g.right.node == other
      ensures InOrder(Plug(up, g)) == InOrder(Plug(up, g0))
      ensures pool.Keys == old(pool.Keys)
    {
      hide At, Holds, Surrounds, Nodes, ContextNodes, Rotatable, LeftRotated, RightRotated, InOrder, Plug, Balanced,
           Fits;
      Fields(pool, osiNode, up, g0);
      Nephews(pool, osiNode, up, g0, false);
      RightSiblingRaised(pool, osiNode, up, g0);
      var oLeft := pool[other0].left;
      if oLeft != NIL {
        SetColor(oLeft, Black);
      }
      SetColor(other0, Red);
      RotateRight(other0);
      g := LeftRaised(up, g0, h);
      Fields(pool, osiNode, up, g);
      other := pool[parent].right;
    }

    // The last statements of the turn, when the far nephew is red.
    method EraseColorLeftBorrow(parent: nat, other: nat, ghost up: Context, ghost g: Tree, ghost h: nat)
      returns (node: nat, ghost c': Cut)
      requires At(pool, osiNode, up, g) && ShortLeft(up, g, h) && RootColor(g.right.right).Red?
      requires g.node == parent && g.right.node == other
      modifies this`pool, this`osiNode
      ensures Erasing(pool, osiNode, c') && c'.ctx == Top && node == osiNode == Ref(c'.t)
      ensures InOrder(Plug(c'.ctx, c'.t)) == InOrder(Plug(up, g))
      ensures pool.Keys == old(pool.Keys)
    {
      hide At, Holds, Surrounds, Nodes, ContextNodes, Rotatable, LeftRotated, RightRotated, InOrder, Plug, Balanced,
           Fits, Erasing;
      Fields(pool, osiNode, up, g);
      Nephews(pool, osiNode, up, g, false);
      RightBorrowed(pool, osiNode, up, g);
      SetColor(other, pool[parent].color);
      SetColor(parent, Black);
      if pool[other].right != NIL {
        SetColor(pool[other].right, Black);
      }
      RotateLeft(parent);
      c' := LeftBorrows(pool, osiNode, up, g, h);
      node := osiNode;
    }

    // One turn of the loop of __osi_erase_color when the short subtree is its parent's right child:
    // the mirror image.
    method EraseColorRight(node0: nat, parent0: nat, ghost c: Cut) returns (node: nat, parent: nat, ghost c': Cut)
      requires Erasing(pool, osiNode, c) && RootColor(c.t).Black? && c.ctx.InRight?
      requires node0 == Ref(c.t) && parent0 == c.ctx.node
      modifies this`pool, this`osiNode
      ensures Erasing(pool, osiNode, c') && node == Ref(c'.t) && parent == ParentRef(c'.ctx)
      ensures Depth(c'.ctx) < Depth(c.ctx) || (Depth(c'.ctx) == Depth(c.ctx) && RootColor(c'.t).Red?)
      ensures InOrder(Plug(c'.ctx, c'.t)) == InOrder(Plug(c.ctx, c.t))
      ensures pool.Keys == old(pool.Keys)
    {
      hide At, Holds, Surrounds, Nodes, ContextNodes, Rotatable, RightRotated, LeftRotated, InOrder, Plug;
      CutAtParent(pool, osiNode, c);
      ghost var up, g := c.ctx.up, ParentTree(c);
      Fields(pool, osiNode, up, g);
      var other := pool[parent0].left;
      if pool[other].color.Red? {
        LeftChildRaised(pool, osiNode, up, g, Black, Red);
        SetColor(other, Black);
        SetColor(parent0, Red);
        RotateRight(parent0);
        up := InRight(g.left.left, g.left.node, Black, up);
        g := Branch(g.left.right, parent0, Red, c.t);
        Fields(pool, osiNode, up, g);
        other := pool[parent0].left;
      }
      RightShortage(up, g, c.h);
      node, parent, c' := EraseColorRightBlack(parent0, other, up, g, c.h);
    }

    // The rest of the turn, with a black sibling.
    method EraseColorRightBlack(parent0: nat, other0: nat, ghost up: Context, ghost g0: Tree, ghost h: nat)
      returns (node: nat, parent: nat, ghost c': Cut)
      requires At(pool, osiNode, up, g0) && ShortRight(up, g0, h) && g0.node == parent0 && g0.left.node == other0
      modifies this`pool, this`osiNode
      ensures Erasing(pool, osiNode, c') && node == Ref(c'.t) && parent == ParentRef(c'.ctx)
      ensures Depth(c'.ctx) <= Depth(up) && (g0.color.Red? ==> RootColor(c'.t).Red? || c'.ctx == Top)
      ensures InOrder(Plug(c'.ctx, c'.t)) == InOrder(Plug(up, g0))
      ensures pool.Keys == old(pool.Keys)
    {
      hide At, Holds, Surrounds, Nodes, ContextNodes, Rotatable, RightRotated, LeftRotated, InOrder, Plug, Balanced,
           Fits, Erasing;
      parent := parent0;
      var other := other0;
      ghost var g := g0;
      Fields(pool, osiNode, up, g);
      Nephews(pool, osiNode, up, g, true);
      if (pool[other].right == NIL || pool[pool[other].right].color.Black?) &&
         (pool[other].left == NIL || pool[pool[other].left].color.Black?) {
        RecoloredLeft(pool, osiNode, up, g, Red);
        SetColor(other, Red);
        g := g.(left := g.left.(color := Red));
        Fields(pool, osiNode, up, g);
        node := parent;
        parent := pool[node].parent;
        c' := RightRecolored(pool, osiNode, up, g0, h);
        SameOrder(up, g0, g);
      } else {
        if pool[other].left == NIL || pool[pool[other].left].color.Black? {
          other, g := EraseColorRightRaise(parent, other, up, g, h);
        }
        node, c' := EraseColorRightBorrow(parent, other, up, g, h);
        parent := NIL;
      }
    }

    // The statements that make the far nephew red when only the near one is.
    method EraseColorRightRaise(parent: nat, other0: nat, ghost up: Context, ghost g0: Tree, ghost h: nat)
      returns (other: nat, ghost g: Tree)
      requires At(pool, osiNode, up, g0) && ShortRight(up, g0, h)
      requires RootColor(g0.left.right).Red? && RootColor(g0.left.left).Black?
      requires g0.node == parent && g0.left.node == other0
      modifies this`pool, this`osiNode
      ensures At(pool, osiNode, up, g) && ShortRight(up, g, h) && RootColor(g.left.left).Red?
      ensures g.node == parent && g.left.node == other
      ensures InOrder(Plug(up, g)) == InOrder(Plug(up, g0))
      ensures pool.Keys == old(pool.Keys)
    {
      hide At, Holds, Surrounds, Nodes, ContextNodes, Rotatable, RightRotated, LeftRotated, InOrder, Plug, Balanced,
           Fits;
      Fields(pool, osiNode, up, g0);
      Nephews(pool, osiNode, up, g0, true);
      LeftSiblingRaised(pool, osiNode, up, g0);
      var oRight := pool[other0].right;
      if oRight != NIL {
        SetColor(oRight, Black);
      }
      SetColor(other0, Red);
      RotateLeft(other0);
      g := RightRaised(up, g0, h);
      Fields(pool, osiNode, up, g);
      other := pool[parent].left;
    }

    // The last statements of the turn, when the far nephew is red.
    method EraseColorRightBorrow(parent: nat, other: nat, ghost up: Context, ghost g: Tree, ghost h: nat)
      returns (node: nat, ghost c': Cut)
      requires At(pool, osiNode, up, g) && ShortRight(up, g, h) && RootColor(g.left.left).Red?
      requires g.node == parent && g.left.node == other
      modifies this`pool, this`osiNode
      ensures Erasing(pool, osiNode, c') && c'.ctx == Top && node == osiNode == Ref(c'.t)
      ensures InOrder(Plug(c'.ctx, c'.t)) == InOrder(Plug(up, g))
      ensures pool.Keys == old(pool.Keys)
    {
      hide At, Holds, Surrounds, Nodes, ContextNodes, Rotatable, RightRotated, LeftRotated, InOrder, Plug, Balanced,
           Fits, Erasing;
      Fields(pool, osiNode, up, g);
      Nephews(pool, osiNode, up, g, true);
      LeftBorrowed(pool, osiNode, up, g);
      SetColor(other, pool[parent].color);
      SetColor(parent, Black);
      if pool[other].left != NIL {
        SetColor(pool[other].left, Black);
      }
      RotateRight(parent);
      c' := RightBorrows(pool, osiNode, up, g, h);
      node := osiNode;
    }

    method EraseColor(node0: nat, parent0: nat, ghost c0: Cut) returns (ghost t': Tree)
      requires Erasing(pool, osiNode, c0) && node0 == Ref(c0.t) && parent0 == ParentRef(c0.ctx)
      modifies this`pool, this`osiNode
      ensures At(pool, osiNode, Top, t') && RedBlack(t')
      ensures InOrder(t') == InOrder(Plug(c0.ctx, c0.t))
      ensures pool.Keys == old(pool.Keys)
    {
      hide At, Holds, Surrounds, Nodes, ContextNodes, Plug, InOrder;
      var node, parent := node0, parent0;
      ghost var c := c0;
      Fields(pool, osiNode, c.ctx, c.t);
      while (node == NIL || pool[node].color.Black?) && node != osiNode
        invariant Erasing(pool, osiNode, c) && node == Ref(c.t) && parent == ParentRef(c.ctx)
        invariant node == NIL <==> c.t == Leaf
        invariant node != NIL ==> node in pool && pool[node].color == RootColor(c.t)
        invariant c.ctx == Top <==> node == osiNode
        invariant InOrder(Plug(c.ctx, c.t)) == InOrder(Plug(c0.ctx, c0.t))
        invariant pool.Keys == old(pool.Keys)
        decreases Depth(c.ctx), if RootColor(c.t).Black? then 1 else 0
      {
        ErasingSide(pool, osiNode, c);
        if pool[parent].left == node {
          node, parent, c := EraseColorLeft(node, parent, c);
        } else {
          node, parent, c := EraseColorRight(node, parent, c);
        }
        Fields(pool, osiNode, c.ctx, c.t);
      }
      t' := BlackNode(pool, osiNode, c);
      if node != NIL {
        SetColor(node, Black);
      }
    }

    // The branch of osi_erase for a node with at most one child.
    method TakeOutSingle(node: nat, child: nat, ghost ctx: Context, ghost t: Tree)
      returns (parent: nat, color: Color, ghost c: Cut)
      requires At(pool, osiNode, ctx, t) && t.Branch? && t.node == node && RedBlack(Plug(ctx, t))
      requires (child == Ref(t.right) && t.left == Leaf) || (child == Ref(t.left) && t.right == Leaf)
      modifies this`pool, this`osiNode
      ensures TakenOut(pool, osiNode, c, color) && child == Ref(c.t) && parent == ParentRef(c.ctx)
      ensures InOrder(Plug(c.ctx, c.t)) == Without(InOrder(Plug(ctx, t)), node)
      ensures pool.Keys == old(pool.Keys)
    {
      hide At, Holds, Surrounds, Nodes, ContextNodes, Erasing, TakenOut, Balanced, Fits, InOrder, Plug, Without;
      ghost var pool0, root0 := pool, osiNode;
      ghost var k := if t.left == Leaf && child == Ref(t.right) then t.right else t.left;
      Fields(pool, osiNode, ctx, t);
      UnlinkedHeld(pool, osiNode, ctx, t, k);
      ghost var h := CutBalanced(ctx, t);
      OrderWithoutSingle(pool, osiNode, ctx, t, k);

      parent := pool[node].parent;
      color := pool[node].color;
      if child != NIL {
        SetParent(child, parent);
      }
      Relink(parent, node, child);
      assert pool == Unlinked(pool0, node, child);
      c := TakeOut(pool, osiNode, ctx, t, k, h);
    }

    // Point p's link to n, or the root pointer, at m.
    method Relink(p: nat, n: nat, m: nat)
      requires p != NIL ==> p in pool
      modifies this`pool, this`osiNode
      ensures pool == Relinked(old(pool), p, n, m) && pool.Keys == old(pool.Keys)
      ensures osiNode == if p == NIL then m else old(osiNode)
    {
      if p != NIL {
        if pool[p].left == n {
          SetLeft(p, m);
        } else {
          SetRight(p, m);
        }
      } else {
        osiNode := m;
      }
    }

    // The pointer updates of osi_erase that put the successor s in the place of old_.
    method SpliceSuccessor(old_: nat, s: nat) returns (child: nat, parent: nat, color: Color)
      requires Distinct(pool, old_, s)
      modifies this`pool, this`osiNode
      ensures Succeeded(old(pool), old(osiNode), pool, osiNode, old_, s, child)
      ensures child == old(pool)[s].right && color == old(pool)[s].color
      ensures parent == if old(pool)[s].parent == old_ then s else old(pool)[s].parent
      ensures pool.Keys == old(pool.Keys)
    {
      hide Distinct, Relinked, Succeeded, DeepSplice;
      ghost var pool0, root0 := pool, osiNode;
      RelinkedKeeps(pool, old_, s);
      Relink(pool[old_].parent, old_, s);
      ghost var pool1 := pool;
      child := pool[s].right;
      parent := pool[s].parent;
      color := pool[s].color;
      if parent == old_ {
        parent := s;
      } else {
        SpliceDeep(old_, s, child, parent);
      }
      TakeOver(old_, s);
      if parent == s {
        DirectSpliced(pool0, root0, pool1, pool, osiNode, old_, s);
      } else {
        DeepSpliced(pool0, root0, pool1, pool, osiNode, old_, s);
      }
    }

    // The successor takes over the erased node's parent, colour and left child.
    method TakeOver(old_: nat, s: nat)
      requires old_ in pool && s in pool && s != old_ && pool[old_].left in pool && pool[old_].left != s
      requires pool[old_].left != old_
      modifies this`pool
      ensures pool.Keys == old(pool.Keys)
      ensures
        var n, p := old(pool)[old_], old(pool);
        pool == p[s := Node(n.parent, n.color, n.left, p[s].right)][n.left := p[n.left].(parent := s)]
    {
      SetParent(s, pool[old_].parent);
      SetColor(s, pool[old_].color);
      SetLeft(s, pool[old_].left);
      SetParent(pool[old_].left, s);
    }

    // The updates when the successor is not the erased node's child.
    method SpliceDeep(old_: nat, s: nat, child: nat, parent: nat)
      requires old_ in pool && s in pool && parent in pool && pool[old_].right in pool && pool[old_].left in pool
      requires child != NIL ==> child in pool
      requires old_ != s && old_ != parent && old_ != child && old_ != pool[old_].right
      requires pool[old_].left != parent && pool[old_].left != s && pool[old_].left != child
      requires pool[old_].left != pool[old_].right
      modifies this`pool
      ensures pool == DeepSplice(old(pool), s, parent, child, old(pool)[old_].right)
      ensures pool.Keys == old(pool.Keys) && pool[old_] == old(pool)[old_]
      ensures pool[pool[old_].left] == old(pool)[old(pool)[old_].left]
    {
      if child != NIL {
        SetParent(child, parent);
      }
      SetLeft(parent, child);
      SetRight(s, pool[old_].right);
      SetParent(pool[old_].right, s);
    }

    // The branch of osi_erase for a node with two children: its successor takes its place.
    method TakeOutDouble(old_: nat, ghost ctx: Context, ghost t: Tree)
      returns (child: nat, parent: nat, color: Color, ghost c: Cut)
      requires At(pool, osiNode, ctx, t) && t.Branch? && t.node == old_ && RedBlack(Plug(ctx, t))
      requires t.left.Branch? && t.right.Branch?
      modifies this`pool, this`osiNode
      ensures TakenOut(pool, osiNode, c, color) && child == Ref(c.t) && parent == ParentRef(c.ctx)
      ensures InOrder(Plug(c.ctx, c.t)) == Without(InOrder(Plug(ctx, t)), old_)
      ensures pool.Keys == old(pool.Keys)
    {
      hide At, Holds, Surrounds, Nodes, ContextNodes, Erasing, TakenOut, Distinct, Succeeded, InOrder, RedBlack;
      ghost var pool0, root0 := pool, osiNode;
      ghost var base, path, cur := InRight(t.left, old_, t.color, ctx), Context.Top, t.right;
      Fields(pool, osiNode, ctx, t);
      Refocus(pool, osiNode, ctx, t, base, cur);
      var node := pool[old_].right;
      Fields(pool, osiNode, base, cur);
      var left := pool[node].left;
      while left != NIL
        invariant pool == pool0 && osiNode == root0
        invariant At(pool, osiNode, Stack(path, base), cur) && cur.Branch? && cur.node == node && left == Ref(cur.left)
        invariant Leftmost(path) && Plug(path, cur) == t.right
        invariant left == NIL <==> cur.left.Leaf?
        invariant node in pool
        decreases cur
      {
        node := left;
        Refocus(pool, osiNode, Stack(path, base), cur, InLeft(Stack(path, base), cur.node, cur.color, cur.right),
                cur.left);
        path, cur := InLeft(path, cur.node, cur.color, cur.right), cur.left;
        Fields(pool, osiNode, Stack(path, base), cur);
        left := pool[node].left;
      }
      SuccessorPointers(pool, osiNode, ctx, t, path, cur);
      c := SuccessorOrder(pool, osiNode, ctx, t, path, cur);
      child, parent, color := SpliceSuccessor(old_, node);
      SucceededHeld(pool0, root0, pool, osiNode, ctx, t, path, cur);
      SuccessorTakenOut(pool, osiNode, c, cur);
    }

    // Taking out any node keeps a red-black tree and takes exactly that node out of the order.
    method Erase(node: nat)
      requires Valid() && node in Nodes(tree)
      modifies this
      ensures Valid()
      ensures InOrder(tree) == Without(InOrder(old(tree)), node)
      ensures pool.Keys == old(pool.Keys)
    {
      hide At, Holds, Surrounds, Nodes, ContextNodes, Erasing;
      ghost var ctx, t := Focus(Top, tree, node);
      Refocus(pool, osiNode, Top, tree, ctx, t);
      Fields(pool, osiNode, ctx, t);
      var child, parent, color;
      ghost var c: Cut;
      if pool[node].left == NIL {
        child := pool[node].right;
        parent, color, c := TakeOutSingle(node, child, ctx, t);
      } else if pool[node].right == NIL {
        child := pool[node].left;
        parent, color, c := TakeOutSingle(node, child, ctx, t);
      } else {
        child, parent, color, c := TakeOutDouble(node, ctx, t);
      }
      if color.Black? {
        tree := EraseColor(child, parent, c);
      } else {
        AtPlug(pool, osiNode, c.ctx, c.t);
        tree := Plug(c.ctx, c.t);
      }
    }

    // osi_link_node followed by osi_insert_color: a new node takes the place of the null pointer at the cut.
    method LinkAndInsert(node: nat, parent: nat, left: bool, ghost ctx: Context)
      requires Valid() && Plug(ctx, Leaf) == tree && At(pool, osiNode, ctx, Leaf)
      requires node != NIL && node !in pool && parent == ParentRef(ctx) && (parent != NIL ==> left == ctx.InLeft?)
      modifies this
      ensures Valid()
      ensures InOrder(tree) == Before(ctx) + [node] + After(ctx)
      ensures pool.Keys == old(pool.Keys) + {node}
    {
      hide Surrounds, Nodes, ContextNodes;
      ghost var pool0, root0, t := pool, osiNode, Branch(Leaf, node, Red, Leaf);
      Fields(pool, osiNode, ctx, Leaf);
      pool := pool[node := Node(parent, Red, NIL, NIL)];
      if parent == NIL {
        osiNode := node;
      } else if left {
        SetLeft(parent, node);
      } else {
        SetRight(parent, node);
      }
      LinkedHeld(pool0, root0, pool, osiNode, ctx, node);
      ghost var h := CutBalanced(ctx, Leaf);
      InOrderPlug(ctx, t);
      assert InOrder(t) == [node];
      tree := InsertColor(node, Cut(ctx, t, h));
    }

    // The descent to the leftmost, or rightmost, node of a subtree.
    method DescendLeft(n0: nat, ghost ctx0: Context, ghost t0: Tree) returns (n: nat, ghost ctx: Context, ghost t: Tree)
      requires At(pool, osiNode, ctx0, t0) && t0.Branch? && t0.node == n0
      ensures At(pool, osiNode, ctx, t) && t.Branch? && t.node == n != NIL && t.left == Leaf
      ensures Plug(ctx, t) == Plug(ctx0, t0)
      ensures InOrder(t) + After(ctx) == InOrder(t0) + After(ctx0) && Before(ctx) == Before(ctx0)
    {
      hide At;
      n, ctx, t := n0, ctx0, t0;
      Fields(pool, osiNode, ctx, t);
      while pool[n].left != NIL
        invariant At(pool, osiNode, ctx, t) && t.Branch? && t.node == n && Plug(ctx, t) == Plug(ctx0, t0)
        invariant InOrder(t) + After(ctx) == InOrder(t0) + After(ctx0) && Before(ctx) == Before(ctx0)
        invariant n in pool && n != NIL && pool[n].left == Ref(t.left) && (t.left.Branch? ==> t.left.node != NIL)
        decreases t
      {
        Refocus(pool, osiNode, ctx, t, InLeft(ctx, t.node, t.color, t.right), t.left);
        Regroup([], InOrder(t.left), t.node, InOrder(t.right), After(ctx));
        ctx, t := InLeft(ctx, t.node, t.color, t.right), t.left;
        Fields(pool, osiNode, ctx, t);
        n := pool[n].left;
      }
    }

    method DescendRight(n0: nat, ghost ctx0: Context, ghost t0: Tree)
      returns (n: nat, ghost ctx: Context, ghost t: Tree)
      requires At(pool, osiNode, ctx0, t0) && t0.Branch? && t0.node == n0
      ensures At(pool, osiNode, ctx, t) && t.Branch? && t.node == n != NIL && t.right == Leaf
      ensures Plug(ctx, t) == Plug(ctx0, t0)
      ensures Before(ctx) + InOrder(t) == Before(ctx0) + InOrder(t0) && After(ctx) == After(ctx0)
    {
      hide At;
      n, ctx, t := n0, ctx0, t0;
      Fields(pool, osiNode, ctx, t);
      while pool[n].right != NIL
        invariant At(pool, osiNode, ctx, t) && t.Branch? && t.node == n && Plug(ctx, t) == Plug(ctx0, t0)
        invariant Before(ctx) + InOrder(t) == Before(ctx0) + InOrder(t0) && After(ctx) == After(ctx0)
        invariant n in pool && n != NIL && pool[n].right == Ref(t.right) && (t.right.Branch? ==> t.right.node != NIL)
        decreases t
      {
        Refocus(pool, osiNode, ctx, t, InRight(t.left, t.node, t.color, ctx), t.right);
        Regroup(Before(ctx), InOrder(t.left), t.node, InOrder(t.right), []);
        ctx, t := InRight(t.left, t.node, t.color, ctx), t.right;
        Fields(pool, osiNode, ctx, t);
        n := pool[n].right;
      }
    }

    method First() returns (n: nat)
      requires Valid()
      ensures n == if InOrder(tree) == [] then NIL else InOrder(tree)[0]
    {
      n := osiNode;
      if n == NIL {
        Fields(pool, osiNode, Top, tree);
        return;
      }
      ghost var ctx, t;
      Fields(pool, osiNode, Top, tree);
      n, ctx, t := DescendLeft(n, Top, tree);
      assert InOrder(t) + After(ctx) == InOrder(tree);
    }

    method Last() returns (n: nat)
      requires Valid()
      ensures n == if InOrder(tree) == [] then NIL else InOrder(tree)[|InOrder(tree)| - 1]
    {
      n := osiNode;
      if n == NIL {
        Fields(pool, osiNode, Top, tree);
        return;
      }
      ghost var ctx, t;
      Fields(pool, osiNode, Top, tree);
      n, ctx, t := DescendRight(n, Top, tree);
      assert Before(ctx) + InOrder(t) == InOrder(tree);
    }

    method Next(node0: nat) returns (n: nat)
      requires Valid() && node0 in Nodes(tree)
      ensures IsNext(InOrder(tree), node0, n)
    {
      hide At, Holds, Surrounds, Nodes, ContextNodes;
      var node := node0;
      ghost var ctx, t := Focus(Top, tree, node);
      Refocus(pool, osiNode, Top, tree, ctx, t);
      Fields(pool, osiNode, ctx, t);
      InOrderPlug(ctx, t);
      ghost var a := Before(ctx) + InOrder(t.left);
      ghost var b := InOrder(t.right) + After(ctx);
      Regroup(Before(ctx), InOrder(t.left), node, InOrder(t.right), After(ctx));
      assert InOrder(tree) == a + [node] + b;
      if pool[node].parent == node {
        ParentIsOther(pool, osiNode, ctx, t);
        assert false;
      }
      if pool[node].right != NIL {
        Refocus(pool, osiNode, ctx, t, InRight(t.left, t.node, t.color, ctx), t.right);
        ctx, t := InRight(t.left, t.node, t.color, ctx), t.right;
        node := pool[node].right;
        Fields(pool, osiNode, ctx, t);
        node, ctx, t := DescendLeft(node, ctx, t);
        ShowNext(InOrder(tree), a, node0, b, node);
        return node;
      }
      assert b == After(ctx);
      n := pool[node].parent;
      while n != NIL && node == pool[n].right
        invariant At(pool, osiNode, ctx, t) && t.Branch? && t.node == node && n == ParentRef(ctx) && b == After(ctx)
        invariant n == NIL <==> ctx == Top
        invariant n != NIL ==> n in pool && (node == pool[n].right <==> ctx.InRight?)
        decreases Depth(ctx)
      {
        Refocus(pool, osiNode, ctx, t, ctx.up, Branch(ctx.sibling, ctx.node, ctx.color, t));
        ctx, t := ctx.up, Branch(ctx.sibling, ctx.node, ctx.color, t);
        Fields(pool, osiNode, ctx, t);
        node := n;
        n := pool[node].parent;
      }
      assert ctx.InLeft? ==> After(ctx) == [ctx.node] + (InOrder(ctx.sibling) + After(ctx.up));
      ShowNext(InOrder(tree), a, node0, b, n);
    }

    method Prev(node0: nat) returns (n: nat)
      requires Valid() && node0 in Nodes(tree)
      ensures IsPrev(InOrder(tree), node0, n)
    {
      hide At, Holds, Surrounds, Nodes, ContextNodes;
      var node := node0;
      ghost var ctx, t := Focus(Top, tree, node);
      Refocus(pool, osiNode, Top, tree, ctx, t);
      Fields(pool, osiNode, ctx, t);
      InOrderPlug(ctx, t);
      ghost var a := Before(ctx) + InOrder(t.left);
      ghost var b := InOrder(t.right) + After(ctx);
      Regroup(Before(ctx), InOrder(t.left), node, InOrder(t.right), After(ctx));
      assert InOrder(tree) == a + [node] + b;
      if pool[node].parent == node {
        ParentIsOther(pool, osiNode, ctx, t);
        assert false;
      }
      if pool[node].left != NIL {
        Refocus(pool, osiNode, ctx, t, InLeft(ctx, t.node, t.color, t.right), t.left);
        ctx, t := InLeft(ctx, t.node, t.color, t.right), t.left;
        node := pool[node].left;
        Fields(pool, osiNode, ctx, t);
        node, ctx, t := DescendRight(node, ctx, t);
        ShowPrev(InOrder(tree), a, node0, b, node);
        return node;
      }
      assert a == Before(ctx);
      n := pool[node].parent;
      while n != NIL && node == pool[n].left
        invariant At(pool, osiNode, ctx, t) && t.Branch? && t.node == node && n == ParentRef(ctx) && a == Before(ctx)
        invariant n == NIL <==> ctx == Top
        invariant n != NIL ==> n in pool && (node == pool[n].left <==> ctx.InLeft?)
        decreases Depth(ctx)
      {
        Refocus(pool, osiNode, ctx, t, ctx.up, Branch(t, ctx.node, ctx.color, ctx.sibling));
        ctx, t := ctx.up, Branch(t, ctx.node, ctx.color, ctx.sibling);
        Fields(pool, osiNode, ctx, t);
        node := n;
        n := pool[node].parent;
      }
      ShowPrev(InOrder(tree), a, node0, b, n);
    }

    // The loop over osi_first and osi_next that every pass uses visits each node once, in order.
    method Visit() returns (visited: seq<nat>)
      requires Valid()
      ensures visited == InOrder(tree)
    {
      visited := [];
      OrderDistinct(pool, tree, NIL);
      InOrderNodes(tree);
      var n := First();
      while n != NIL
        invariant |visited| <= |InOrder(tree)| && visited == InOrder(tree)[..|visited|]
        invariant n == if |visited| < |InOrder(tree)| then InOrder(tree)[|visited|] else NIL
        invariant n == NIL ==> |visited| == |InOrder(tree)|
        decreases |InOrder(tree)| - |visited|
      {
        assert n in InOrder(tree);
        var m := Next(n);
        NextIndex(InOrder(tree), |visited|, m);
        assert m != NIL || |visited| + 1 == |InOrder(tree)|;
        visited, n := visited + [n], m;
      }
    }

    // Memory of a node that is in no tree is given back.
    method Free(n: nat)
      requires Valid() && n !in Nodes(tree)
      modifies this`pool
      ensures Valid() && pool.Keys == old(pool.Keys) - {n}
    {
      ghost var pool0 := pool;
      pool := map m | m in pool && m != n :: pool[m];
      AtFrame(pool0, pool, osiNode, Top, tree);
    }
  }
}
