/** Trees threaded through memory with child and parent pointers and cached heights, cut open at
    one place: a subtree and the context around it. */
module AvlShape {

  type Ptr = int
  const NULL := 0

  /** struct avl_node */
  datatype Cell = Cell(left: Ptr, right: Ptr, parent: Ptr, height: int)

  type Heap = map<Ptr, Cell>

  datatype Tree = Leaf | Node(l: Tree, p: Ptr, r: Tree)

  /** The surroundings of a subtree: the node it hangs from, on which side, and the other
      child. */
  datatype Ctx =
    | Top
    | InL(up: Ctx, p: Ptr, r: Tree)
    | InR(up: Ctx, l: Tree, p: Ptr)

  function Plug(c: Ctx, t: Tree): Tree {
    match c
    case Top => t
    case InL(up, p, r) => Plug(up, Node(t, p, r))
    case InR(up, l, p) => Plug(up, Node(l, p, t))
  }

  function Root(t: Tree): Ptr { if t.Leaf? then NULL else t.p }

  /** The node a subtree in context `c` hangs from. */
  function Up(c: Ctx): Ptr { if c.Top? then NULL else c.p }

  function Max(a: int, b: int): int { if a < b then b else a }

  function Height(t: Tree): nat {
    match t
    case Leaf => 0
    case Node(l, _, r) => 1 + Max(Height(l), Height(r))
  }

  predicate Close(a: int, b: int) { -1 <= a - b <= 1 }

  predicate Balanced(t: Tree) {
    t.Node? ==> Close(Height(t.l), Height(t.r)) && Balanced(t.l) && Balanced(t.r)
  }

  function Nodes(t: Tree): set<Ptr> {
    match t
    case Leaf => {}
    case Node(l, p, r) => Nodes(l) + {p} + Nodes(r)
  }

  function CtxNodes(c: Ctx): set<Ptr> {
    match c
    case Top => {}
    case InL(up, p, r) => CtxNodes(up) + {p} + Nodes(r)
    case InR(up, l, p) => CtxNodes(up) + {p} + Nodes(l)
  }

  /** No node occurs twice, and none is NULL. */
  predicate Distinct(t: Tree) {
    t.Node? ==>
      && t.p != NULL && t.p !in Nodes(t.l) && t.p !in Nodes(t.r) && Nodes(t.l) !! Nodes(t.r)
      && Distinct(t.l) && Distinct(t.r)
  }

  predicate CtxDistinct(c: Ctx) {
    match c
    case Top => true
    case InL(up, p, r) =>
      p != NULL && p !in Nodes(r) && p !in CtxNodes(up) && Nodes(r) !! CtxNodes(up) && Distinct(r) && CtxDistinct(up)
    case InR(up, l, p) =>
      p != NULL && p !in Nodes(l) && p !in CtxNodes(up) && Nodes(l) !! CtxNodes(up) && Distinct(l) && CtxDistinct(up)
  }

  /** Memory holds the tree below parent `up`, heights included. */
  predicate Rep(h: Heap, t: Tree, up: Ptr) {
    t.Node? ==>
      && t.p in h && h[t.p] == Cell(Root(t.l), Root(t.r), up, Height(t))
      && Rep(h, t.l, t.p) && Rep(h, t.r, t.p)
  }

  /** Memory holds the context of a subtree whose root is `child`; its cached heights and its
      balance are right for a subtree of height `k`. */
  predicate RepCtx(h: Heap, c: Ctx, child: Ptr, k: int, root: Ptr) {
    match c
    case Top => root == child
    case InL(up, p, r) =>
      && p in h && h[p] == Cell(child, Root(r), Up(up), 1 + Max(k, Height(r)))
      && Rep(h, r, p) && Balanced(r) && Close(k, Height(r))
      && RepCtx(h, up, p, 1 + Max(k, Height(r)), root)
    case InR(up, l, p) =>
      && p in h && h[p] == Cell(Root(l), child, Up(up), 1 + Max(Height(l), k))
      && Rep(h, l, p) && Balanced(l) && Close(k, Height(l))
      && RepCtx(h, up, p, 1 + Max(Height(l), k), root)
  }

  function Inorder(t: Tree): seq<Ptr> {
    match t
    case Leaf => []
    case Node(l, p, r) => Inorder(l) + [p] + Inorder(r)
  }

  /** The nodes in front of and behind a subtree. */
  function Before(c: Ctx): seq<Ptr> {
    match c
    case Top => []
    case InL(up, _, _) => Before(up)
    case InR(up, l, p) => Before(up) + Inorder(l) + [p]
  }

  function After(c: Ctx): seq<Ptr> {
    match c
    case Top => []
    case InL(up, p, r) => [p] + Inorder(r) + After(up)
    case InR(up, _, _) => After(up)
  }

  lemma Regroup(a: seq<Ptr>, b: seq<Ptr>, c: seq<Ptr>, d: seq<Ptr>, e: seq<Ptr>)
    ensures a + (b + c + d) + e == a + b + (c + d + e) == (a + b + c) + d + e
  {}

  lemma {:induction false} InorderPlug(c: Ctx, t: Tree)
    ensures Inorder(Plug(c, t)) == Before(c) + Inorder(t) + After(c)
    decreases c
  {
    match c
    case Top =>
    case InL(up, p, r) =>
      InorderPlug(up, Node(t, p, r));
      Regroup(Before(up), Inorder(t), [p], Inorder(r), After(up));
    case InR(up, l, p) =>
      InorderPlug(up, Node(l, p, t));
      Regroup(Before(up), Inorder(l), [p], Inorder(t), After(up));
  }

  lemma {:induction false} InorderNodes(t: Tree)
    ensures forall x :: x in Inorder(t) <==> x in Nodes(t)
  {
    if t.Node? { InorderNodes(t.l); InorderNodes(t.r); }
  }

  // ---------------------------------------------------------------- frames

  lemma {:induction false} RepFrame(h: Heap, h': Heap, t: Tree, up: Ptr)
    requires Rep(h, t, up) && forall x :: x in Nodes(t) ==> x in h' && x in h && h'[x] == h[x]
    ensures Rep(h', t, up)
    decreases t
  {
    if t.Node? {
      RepFrame(h, h', t.l, t.p);
      RepFrame(h, h', t.r, t.p);
    }
  }

  /** A subtree that only got a new parent. */
  lemma Reparent(h: Heap, h': Heap, t: Tree, up: Ptr, up': Ptr)
    requires Rep(h, t, up) && Distinct(t)
    requires t.Node? ==> t.p in h' && h'[t.p] == h[t.p].(parent := up')
    requires forall x :: x in Nodes(t) && x != Root(t) ==> x in h' && x in h && h'[x] == h[x]
    ensures Rep(h', t, up')
  {
    if t.Node? {
      RepFrame(h, h', t.l, t.p);
      RepFrame(h, h', t.r, t.p);
    }
  }

  lemma {:induction false} RepInHeap(h: Heap, t: Tree, up: Ptr)
    requires Rep(h, t, up)
    ensures Nodes(t) <= h.Keys
    decreases t
  {
    if t.Node? { RepInHeap(h, t.l, t.p); RepInHeap(h, t.r, t.p); }
  }

  /** A context whose nodes did not change. */
  lemma {:induction false} CtxFrame(h: Heap, h': Heap, c: Ctx, child: Ptr, k: int, root: Ptr)
    requires RepCtx(h, c, child, k, root) && forall x :: x in CtxNodes(c) ==> x in h && x in h' && h'[x] == h[x]
    ensures RepCtx(h', c, child, k, root)
    decreases c
  {
    hide Height, Balanced, Rep;
    match c
    case Top =>
    case InL(up, p, r) =>
      RepFrame(h, h', r, p);
      CtxFrame(h, h', up, p, 1 + Max(k, Height(r)), root);
    case InR(up, l, p) =>
      RepFrame(h, h', l, p);
      CtxFrame(h, h', up, p, 1 + Max(Height(l), k), root);
  }

  lemma {:induction false} CtxInHeap(h: Heap, c: Ctx, child: Ptr, k: int, root: Ptr)
    requires RepCtx(h, c, child, k, root)
    ensures CtxNodes(c) <= h.Keys
    decreases c
  {
    hide Height, Balanced, Rep;
    match c
    case Top =>
    case InL(up, p, r) =>
      RepInHeap(h, r, p);
      CtxInHeap(h, up, p, 1 + Max(k, Height(r)), root);
    case InR(up, l, p) =>
      RepInHeap(h, l, p);
      CtxInHeap(h, up, p, 1 + Max(Height(l), k), root);
  }

  /** _avl_child_replace: hang another root into the context. */
  function Hang(h: Heap, c: Ctx, child: Ptr): Heap
    requires !c.Top? ==> c.p in h
  {
    match c
    case Top => h
    case InL(_, p, _) => h[p := h[p].(left := child)]
    case InR(_, _, p) => h[p := h[p].(right := child)]
  }

  function HangRoot(c: Ctx, child: Ptr, root: Ptr): Ptr { if c.Top? then child else root }

  lemma HangCtx(h: Heap, c: Ctx, child: Ptr, child': Ptr, k: int, root: Ptr)
    requires RepCtx(h, c, child, k, root) && CtxDistinct(c)
    ensures !c.Top? ==> c.p in h
    ensures RepCtx(Hang(h, c, child'), c, child', k, HangRoot(c, child', root))
  {
    hide Nodes, CtxNodes, Distinct, Height, Rep, Balanced;
    if c.Top? { return; }
    var s := if c.InL? then c.r else c.l;
    var k' := if c.InL? then 1 + Max(k, Height(s)) else 1 + Max(Height(s), k);
    assert Rep(h, s, c.p) && RepCtx(h, c.up, c.p, k', root);
    assert c.p !in Nodes(s) && c.p !in CtxNodes(c.up);
    var h' := Hang(h, c, child');
    RepInHeap(h, s, c.p);
    CtxInHeap(h, c.up, c.p, k', root);
    RepFrame(h, h', s, c.p);
    CtxFrame(h, h', c.up, c.p, k', root);
  }

  /** The context after its subtree was replaced, whatever happened outside it. */
  lemma HangFrame(h: Heap, h': Heap, c: Ctx, child: Ptr, child': Ptr, k: int, root: Ptr)
    requires RepCtx(h, c, child, k, root) && CtxDistinct(c)
    requires !c.Top? ==> c.p in h && c.p in h' && h'[c.p] == Hang(h, c, child')[c.p]
    requires forall x :: x in CtxNodes(c) && x != Up(c) ==> x in h && x in h' && h'[x] == h[x]
    ensures RepCtx(h', c, child', k, HangRoot(c, child', root))
  {
    hide Nodes, Distinct, Height, Rep, Balanced, RepCtx, CtxDistinct;
    HangCtx(h, c, child, child', k, root);
    CtxInHeap(h, c, child, k, root);
    CtxFrame(Hang(h, c, child'), h', c, child', k, HangRoot(c, child', root));
  }

  // ---------------------------------------------------------------- opening and closing

  /** Closing the context over a subtree of the height it was made for gives an AVL tree. */
  lemma {:induction false} CloseUp(h: Heap, c: Ctx, t: Tree, root: Ptr)
    requires Rep(h, t, Up(c)) && Balanced(t) && RepCtx(h, c, Root(t), Height(t), root)
    ensures Rep(h, Plug(c, t), NULL) && Balanced(Plug(c, t)) && Root(Plug(c, t)) == root
    decreases c
  {
    match c
    case Top =>
    case InL(up, p, r) => CloseUp(h, up, Node(t, p, r), root);
    case InR(up, l, p) => CloseUp(h, up, Node(l, p, t), root);
  }

  lemma {:induction false} NodesPlug(c: Ctx, t: Tree)
    ensures Nodes(Plug(c, t)) == CtxNodes(c) + Nodes(t)
    decreases c
  {
    match c
    case Top =>
    case InL(up, p, r) => NodesPlug(up, Node(t, p, r));
    case InR(up, l, p) => NodesPlug(up, Node(l, p, t));
  }

  lemma {:induction false} DistinctPlug(c: Ctx, t: Tree)
    ensures Distinct(Plug(c, t)) <==> CtxDistinct(c) && Distinct(t) && CtxNodes(c) !! Nodes(t)
    decreases c
  {
    match c
    case Top =>
    case InL(up, p, r) => DistinctPlug(up, Node(t, p, r));
    case InR(up, l, p) => DistinctPlug(up, Node(l, p, t));
  }
}
