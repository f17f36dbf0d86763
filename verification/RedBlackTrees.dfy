/**
 The mathematical side of the balanced tree of osi_tree.h: what a tree is, what makes it
 red-black, and what it means to cut a tree open at one node.

 A tree is cut open into the subtree at the node (`Tree`) and everything around it (`Context`),
 so that a rebalancing loop that climbs from a node towards the root is a walk along a context.
 */
module RedBlackTrees {

  // Nodes are named by their address; address 0 is the null pointer.
  const NIL: nat := 0

  datatype Color = Red | Black

  datatype Tree = Leaf | Branch(left: Tree, node: nat, color: Color, right: Tree)

  // The surroundings of a subtree: its parent (with colour and other child), the parent's parent, ...
  datatype Context =
    | Top
    | InLeft(up: Context, node: nat, color: Color, sibling: Tree)   // the hole is the left child
    | InRight(sibling: Tree, node: nat, color: Color, up: Context)  // the hole is the right child

  function Ref(t: Tree): nat {
    if t.Leaf? then NIL else t.node
  }

  function ParentRef(ctx: Context): nat {
    if ctx.Top? then NIL else ctx.node
  }

  function RootColor(t: Tree): Color {
    if t.Leaf? then Black else t.color
  }

  ghost function Nodes(t: Tree): set<nat> {
    match t
    case Leaf => {}
    case Branch(l, n, _, r) => Nodes(l) + {n} + Nodes(r)
  }

  ghost function ContextNodes(ctx: Context): set<nat> {
    match ctx
    case Top => {}
    case InLeft(up, n, _, s) => ContextNodes(up) + {n} + Nodes(s)
    case InRight(s, n, _, up) => ContextNodes(up) + {n} + Nodes(s)
  }

  // The nodes of the tree in sort order.
  function InOrder(t: Tree): seq<nat> {
    match t
    case Leaf => []
    case Branch(l, n, _, r) => InOrder(l) + [n] + InOrder(r)
  }

  // The nodes of the surroundings that sort before, and after, those of the subtree.
  function Before(ctx: Context): seq<nat> {
    match ctx
    case Top => []
    case InLeft(up, _, _, _) => Before(up)
    case InRight(s, n, _, up) => Before(up) + InOrder(s) + [n]
  }

  function After(ctx: Context): seq<nat> {
    match ctx
    case Top => []
    case InLeft(up, n, _, s) => [n] + InOrder(s) + After(up)
    case InRight(_, _, _, up) => After(up)
  }

  // Close the tree again.
  function Plug(ctx: Context, t: Tree): Tree {
    match ctx
    case Top => t
    case InLeft(up, n, c, s) => Plug(up, Branch(t, n, c, s))
    case InRight(s, n, c, up) => Plug(up, Branch(s, n, c, t))
  }

  ghost function Depth(ctx: Context): nat {
    match ctx
    case Top => 0
    case InLeft(up, _, _, _) => 1 + Depth(up)
    case InRight(_, _, _, up) => 1 + Depth(up)
  }

  function Blacken(t: Tree): Tree {
    if t.Leaf? then Leaf else t.(color := Black)
  }

  // No red node has a red child, and every path down to a null pointer passes h black nodes.
  ghost predicate Balanced(t: Tree, h: nat) {
    match t
    case Leaf => h == 0
    case Branch(l, _, Red, r) => RootColor(l) == Black && RootColor(r) == Black && Balanced(l, h) && Balanced(r, h)
    case Branch(l, _, Black, r) => h > 0 && Balanced(l, h - 1) && Balanced(r, h - 1)
  }

  // Plugging in any balanced tree of black height h whose root has colour c gives a balanced tree.
  ghost predicate Fits(ctx: Context, c: Color, h: nat)
    decreases ctx
  {
    match ctx
    case Top => c == Black
    case InLeft(up, _, Red, s) => c == Black && RootColor(s) == Black && Balanced(s, h) && Fits(up, Red, h)
    case InLeft(up, _, Black, s) => Balanced(s, h) && Fits(up, Black, h + 1)
    case InRight(s, _, Red, up) => c == Black && RootColor(s) == Black && Balanced(s, h) && Fits(up, Red, h)
    case InRight(s, _, Black, up) => Balanced(s, h) && Fits(up, Black, h + 1)
  }

  ghost predicate RedBlack(t: Tree) {
    RootColor(t) == Black && exists h: nat :: Balanced(t, h)
  }

  // Path frames on top of a base context.
  function Stack(path: Context, base: Context): Context {
    match path
    case Top => base
    case InLeft(up, n, c, s) => InLeft(Stack(up, base), n, c, s)
    case InRight(s, n, c, up) => InRight(s, n, c, Stack(up, base))
  }

  function Height(t: Tree): nat {
    match t
    case Leaf => 0
    case Branch(l, _, _, r) => 1 + if Height(l) > Height(r) then Height(l) else Height(r)
  }

  ghost function Pow2(n: nat): nat {
    if n == 0 then 1 else 2 * Pow2(n - 1)
  }

  // ----- facts about cutting and closing

  lemma {:induction false} InOrderPlug(ctx: Context, t: Tree)
    ensures InOrder(Plug(ctx, t)) == Before(ctx) + InOrder(t) + After(ctx)
    decreases ctx
  {
    match ctx
    case Top =>
    case InLeft(up, n, c, s) => InOrderPlug(up, Branch(t, n, c, s));
    case InRight(s, n, c, up) => InOrderPlug(up, Branch(s, n, c, t));
  }

  lemma {:induction false} BalancedPlug(ctx: Context, t: Tree, h: nat)
    requires Balanced(t, h) && Fits(ctx, RootColor(t), h)
    ensures RedBlack(Plug(ctx, t))
    decreases ctx
  {
    match ctx
    case Top =>
    case InLeft(up, n, c, s) => BalancedPlug(up, Branch(t, n, c, s), if c.Black? then h + 1 else h);
    case InRight(s, n, c, up) => BalancedPlug(up, Branch(s, n, c, t), if c.Black? then h + 1 else h);
  }

  // Conversely, a balanced tree is cut into parts that fit.
  lemma {:induction false} CutBalanced(ctx: Context, t: Tree) returns (h: nat)
    requires RedBlack(Plug(ctx, t))
    ensures Balanced(t, h) && Fits(ctx, RootColor(t), h)
    decreases ctx
  {
    match ctx
    case Top =>
      h :| Balanced(t, h);
    case InLeft(up, n, c, s) =>
      h := CutBalanced(up, Branch(t, n, c, s));
      if c.Black? { h := h - 1; }
    case InRight(s, n, c, up) =>
      h := CutBalanced(up, Branch(s, n, c, t));
      if c.Black? { h := h - 1; }
  }

  lemma {:induction false} FitsBlack(ctx: Context, h: nat)
    requires Fits(ctx, Red, h)
    ensures Fits(ctx, Black, h)
  {
  }

  lemma {:induction false} PlugStack(path: Context, base: Context, t: Tree)
    ensures Plug(Stack(path, base), t) == Plug(base, Plug(path, t))
    decreases path
  {
    match path
    case Top =>
    case InLeft(up, n, c, s) => PlugStack(up, base, Branch(t, n, c, s));
    case InRight(s, n, c, up) => PlugStack(up, base, Branch(s, n, c, t));
  }

  // The node at the hole's other side may be renamed without changing any balance.
  lemma {:induction false} FitsRenamed(path: Context, l: Tree, n: nat, m: nat, oc: Color, base: Context, c: Color,
                                       h: nat)
    requires Fits(Stack(path, InRight(l, n, oc, base)), c, h)
    ensures Fits(Stack(path, InRight(l, m, oc, base)), c, h)
    decreases path
  {
    match path
    case Top =>
    case InLeft(up, _, pc, _) =>
      FitsRenamed(up, l, n, m, oc, base, pc, if pc.Black? then h + 1 else h);
    case InRight(_, _, pc, up) =>
      FitsRenamed(up, l, n, m, oc, base, pc, if pc.Black? then h + 1 else h);
  }

  // Any node of a tree can be cut out.
  lemma {:induction false} Focus(ctx: Context, t: Tree, n: nat) returns (c: Context, s: Tree)
    requires n in Nodes(t)
    ensures s.Branch? && s.node == n && Plug(c, s) == Plug(ctx, t)
    decreases t
  {
    if t.node == n {
      c, s := ctx, t;
    } else if n in Nodes(t.left) {
      c, s := Focus(InLeft(ctx, t.node, t.color, t.right), t.left, n);
    } else {
      c, s := Focus(InRight(t.left, t.node, t.color, ctx), t.right, n);
    }
  }

  lemma {:induction false} InOrderNodes(t: Tree)
    ensures forall n :: n in Nodes(t) <==> n in InOrder(t)
  {
    if t.Branch? {
      InOrderNodes(t.left);
      InOrderNodes(t.right);
    }
  }

  // The sequence without the first occurrence of n.
  function Without(s: seq<nat>, n: nat): seq<nat> {
    if s == [] then [] else if s[0] == n then s[1..] else [s[0]] + Without(s[1..], n)
  }

  lemma {:induction false} WithoutMiddle(a: seq<nat>, n: nat, b: seq<nat>)
    requires n !in a
    ensures Without(a + [n] + b, n) == a + b
  {
    if a == [] {
      assert a + [n] + b == [n] + b;
    } else {
      assert (a + [n] + b)[1..] == a[1..] + [n] + b;
      WithoutMiddle(a[1..], n, b);
    }
  }

  lemma {:induction false} BeforeNodes(ctx: Context)
    ensures forall n | n in Before(ctx) :: n in ContextNodes(ctx)
    ensures forall n | n in After(ctx) :: n in ContextNodes(ctx)
    decreases ctx
  {
    match ctx
    case Top =>
    case InLeft(up, n, c, s) => BeforeNodes(up); InOrderNodes(s);
    case InRight(s, n, c, up) => BeforeNodes(up); InOrderNodes(s);
  }

  // ----- height

  lemma {:induction false} Pow2Add(a: nat, b: nat)
    ensures Pow2(a + b) == Pow2(a) * Pow2(b)
  {
    if a > 0 { Pow2Add(a - 1, b); }
  }

  lemma {:induction false} Pow2Monotone(a: nat, b: nat)
    requires a <= b
    ensures Pow2(a) <= Pow2(b)
    decreases b
  {
    if a < b { Pow2Monotone(a, b - 1); }
  }

  lemma {:induction false} BlackHeightBounds(t: Tree, h: nat)
    requires Balanced(t, h)
    ensures Pow2(h) <= |InOrder(t)| + 1
    ensures Height(t) <= if RootColor(t).Red? then 2 * h + 1 else 2 * h
  {
    if t.Branch? {
      var k := if t.color.Black? then h - 1 else h;
      BlackHeightBounds(t.left, k);
      BlackHeightBounds(t.right, k);
    }
  }

  // Height is at most 2 * log2(n + 1), stated without logarithms.
  lemma HeightBound(t: Tree)
    requires RedBlack(t)
    ensures Pow2(Height(t)) <= (|InOrder(t)| + 1) * (|InOrder(t)| + 1)
  {
    var h: nat :| Balanced(t, h);
    BlackHeightBounds(t, h);
    Pow2Monotone(Height(t), h + h);
    Pow2Add(h, h);
    SquareMonotone(Pow2(h), |InOrder(t)| + 1);
  }

  lemma SquareMonotone(a: nat, b: nat)
    requires a <= b
    ensures a * a <= b * b
  {
    assert b * b == a * a + (b - a) * (b + a);
  }
}
