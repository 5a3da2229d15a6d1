/** What rotations and the rebalancing step do to trees, and to their layout in memory. */
module AvlTurn {
  import opened AvlShape

  /** _avl_node_fix_l on a tree whose right side is too high. */
  function FixL(a: Tree, n: Ptr, s: Tree): (t: Tree)
    requires s.Node? && (Height(s.l) > Height(s.r) ==> s.l.Node?)
    ensures t.Node?
  {
    if Height(s.l) > Height(s.r)
    then Node(Node(a, n, s.l.l), s.l.p, Node(s.l.r, s.p, s.r))
    else Node(Node(a, n, s.l), s.p, s.r)
  }

  /** _avl_node_fix_r */
  function FixR(s: Tree, n: Ptr, d: Tree): (t: Tree)
    requires s.Node? && (Height(s.l) < Height(s.r) ==> s.r.Node?)
    ensures t.Node?
  {
    if Height(s.l) < Height(s.r)
    then Node(Node(s.l, s.p, s.r.l), s.r.p, Node(s.r.r, n, d))
    else Node(s.l, s.p, Node(s.r, n, d))
  }

  /** Restoring balance keeps the order and the nodes, and loses at most one level. */
  lemma FixLBalances(a: Tree, n: Ptr, s: Tree)
    requires Balanced(a) && Balanced(s) && Height(s) == Height(a) + 2
    ensures s.Node? && (Height(s.l) > Height(s.r) ==> s.l.Node?)
    ensures Balanced(FixL(a, n, s)) && Height(s) <= Height(FixL(a, n, s)) <= Height(s) + 1
    ensures Height(FixL(a, n, s)) == Height(s) + 1 <==> Height(s.l) == Height(s.r)
  {}

  lemma FixRBalances(s: Tree, n: Ptr, d: Tree)
    requires Balanced(s) && Balanced(d) && Height(s) == Height(d) + 2
    ensures s.Node? && (Height(s.l) < Height(s.r) ==> s.r.Node?)
    ensures Balanced(FixR(s, n, d)) && Height(s) <= Height(FixR(s, n, d)) <= Height(s) + 1
    ensures Height(FixR(s, n, d)) == Height(s) + 1 <==> Height(s.l) == Height(s.r)
  {}

  lemma TurnOrder(a: Tree, n: Ptr, b: Tree, r: Ptr, d: Tree)
    ensures Inorder(Node(Node(a, n, b), r, d)) == Inorder(Node(a, n, Node(b, r, d)))
    ensures Nodes(Node(Node(a, n, b), r, d)) == Nodes(Node(a, n, Node(b, r, d)))
    ensures Distinct(Node(Node(a, n, b), r, d)) <==> Distinct(Node(a, n, Node(b, r, d)))
  {
    assert (Inorder(a) + [n] + Inorder(b)) + [r] + Inorder(d) == Inorder(a) + [n] + (Inorder(b) + [r] + Inorder(d));
  }

  lemma SameInner(a: Tree, n: Ptr, s: Tree, s': Tree)
    requires Inorder(s) == Inorder(s') && Nodes(s) == Nodes(s') && (Distinct(s) <==> Distinct(s'))
    ensures Inorder(Node(a, n, s)) == Inorder(Node(a, n, s')) && Inorder(Node(s, n, a)) == Inorder(Node(s', n, a))
    ensures Nodes(Node(a, n, s)) == Nodes(Node(a, n, s')) && Nodes(Node(s, n, a)) == Nodes(Node(s', n, a))
    ensures Distinct(Node(a, n, s)) <==> Distinct(Node(a, n, s'))
    ensures Distinct(Node(s, n, a)) <==> Distinct(Node(s', n, a))
  {}

  lemma FixLOrder(a: Tree, n: Ptr, s: Tree)
    requires s.Node? && (Height(s.l) > Height(s.r) ==> s.l.Node?)
    ensures Inorder(FixL(a, n, s)) == Inorder(Node(a, n, s)) && Nodes(FixL(a, n, s)) == Nodes(Node(a, n, s))
    ensures Distinct(FixL(a, n, s)) <==> Distinct(Node(a, n, s))
  {
    hide Inorder, Nodes, Distinct, Height;
    if Height(s.l) > Height(s.r) {
      TurnOrder(s.l.l, s.l.p, s.l.r, s.p, s.r);
      SameInner(a, n, s, Node(s.l.l, s.l.p, Node(s.l.r, s.p, s.r)));
      TurnOrder(a, n, s.l.l, s.l.p, Node(s.l.r, s.p, s.r));
    } else {
      TurnOrder(a, n, s.l, s.p, s.r);
    }
  }

  lemma FixROrder(s: Tree, n: Ptr, d: Tree)
    requires s.Node? && (Height(s.l) < Height(s.r) ==> s.r.Node?)
    ensures Inorder(FixR(s, n, d)) == Inorder(Node(s, n, d)) && Nodes(FixR(s, n, d)) == Nodes(Node(s, n, d))
    ensures Distinct(FixR(s, n, d)) <==> Distinct(Node(s, n, d))
  {
    hide Inorder, Nodes, Distinct, Height;
    if Height(s.l) < Height(s.r) {
      TurnOrder(s.l, s.p, s.r.l, s.r.p, s.r.r);
      SameInner(d, n, s, Node(Node(s.l, s.p, s.r.l), s.r.p, s.r.r));
      TurnOrder(Node(s.l, s.p, s.r.l), s.r.p, s.r.r, n, d);
    } else {
      TurnOrder(s.l, s.p, s.r, n, d);
    }
  }

  // ---------------------------------------------------------------- in memory

  /** The links of a node, its cached height aside. */
  predicate Links(h: Heap, p: Ptr, left: Ptr, right: Ptr, up: Ptr) {
    p in h && h[p].left == left && h[p].right == right && h[p].parent == up
  }

  /** The subtree `n` with children `a` and `s`, whose own cached height may be stale. */
  predicate Opened(h: Heap, a: Tree, n: Ptr, s: Tree, up: Ptr) {
    Links(h, n, Root(a), Root(s), up) && Rep(h, a, n) && Rep(h, s, n)
  }

  /** `h'` agrees with `h` on `s`. */
  ghost predicate Agree(h: Heap, h': Heap, s: set<Ptr>) {
    forall x :: x in s ==> x in h && x in h' && h'[x] == h[x]
  }

  ghost predicate Reparented(h: Heap, h': Heap, t: Tree, up: Ptr) {
    t.Node? ==> t.p in h && t.p in h' && h'[t.p] == h[t.p].(parent := up)
  }

  /** A rotation to the left, seen from the nodes it rewrites. */
  lemma TurnL(h: Heap, h': Heap, a: Tree, n: Ptr, b: Tree, r: Ptr, d: Tree, up: Ptr)
    requires Distinct(Node(a, n, Node(b, r, d))) && Rep(h, a, n) && Rep(h, b, r) && Rep(h, d, r)
    requires Agree(h, h', Nodes(a)) && Agree(h, h', Nodes(d)) && Agree(h, h', Nodes(b) - {Root(b)})
    requires Reparented(h, h', b, n)
    requires n in h' && h'[n] == Cell(Root(a), Root(b), r, 1 + Max(Height(a), Height(b)))
    requires r in h' && h'[r] == Cell(n, Root(d), up, 1 + Max(1 + Max(Height(a), Height(b)), Height(d)))
    ensures Rep(h', Node(Node(a, n, b), r, d), up)
  {
    RepFrame(h, h', a, n);
    RepFrame(h, h', d, r);
    Reparent(h, h', b, r, n);
  }

  lemma TurnR(h: Heap, h': Heap, a: Tree, l: Ptr, b: Tree, n: Ptr, d: Tree, up: Ptr)
    requires Distinct(Node(Node(a, l, b), n, d)) && Rep(h, a, l) && Rep(h, b, l) && Rep(h, d, n)
    requires Agree(h, h', Nodes(a)) && Agree(h, h', Nodes(d)) && Agree(h, h', Nodes(b) - {Root(b)})
    requires Reparented(h, h', b, n)
    requires n in h' && h'[n] == Cell(Root(b), Root(d), l, 1 + Max(Height(b), Height(d)))
    requires l in h' && h'[l] == Cell(Root(a), n, up, 1 + Max(Height(a), 1 + Max(Height(b), Height(d))))
    ensures Rep(h', Node(a, l, Node(b, n, d)), up)
  {
    RepFrame(h, h', a, l);
    RepFrame(h, h', d, n);
    Reparent(h, h', b, l, n);
  }

  /** The cached height of a child, zero for a missing one. */
  function HeightAt(h: Heap, p: Ptr): int
    requires p != NULL ==> p in h
  {
    if p == NULL then 0 else h[p].height
  }

  /** A parent that pointed at `x` points at `y`. */
  function Relink(c: Cell, x: Ptr, y: Ptr): Cell {
    if c.left == x then c.(left := y) else c.(right := y)
  }

  ghost predicate InHeap(h: Heap, p: Ptr) { p != NULL ==> p in h }

  /** `h'` is `h` but for the cells of `s`, and the parent `up` points at `y` and no more at `x`. */
  ghost predicate Local(h: Heap, h': Heap, s: set<Ptr>, up: Ptr, x: Ptr, y: Ptr) {
    && h'.Keys == h.Keys
    && (up != NULL ==> up in h && h'[up] == Relink(h[up], x, y))
    && forall z :: z in h && z !in s && z !in {up, NULL} ==> h'[z] == h[z]
  }

  ghost predicate RotatedLeft(h: Heap, h': Heap, n: Ptr, r: Ptr, b: Ptr, up: Ptr)
    requires n in h && r in h && InHeap(h, b) && InHeap(h, up)
  {
    && Local(h, h', {n, r, b}, up, n, r)
    && h'[n] == h[n].(right := b, parent := r)
    && h'[r] == h[r].(left := n, parent := up)
    && (b != NULL ==> h'[b] == h[b].(parent := n))
  }

  ghost predicate RotatedRight(h: Heap, h': Heap, n: Ptr, l: Ptr, b: Ptr, up: Ptr)
    requires n in h && l in h && InHeap(h, b) && InHeap(h, up)
  {
    && Local(h, h', {n, l, b}, up, n, l)
    && h'[n] == h[n].(left := b, parent := l)
    && h'[l] == h[l].(right := n, parent := up)
    && (b != NULL ==> h'[b] == h[b].(parent := n))
  }

  /** The tree under a root that a rotation, with its two height updates, is about to turn. */
  ghost predicate Turnable(h: Heap, a: Tree, n: Ptr, s: Tree, up: Ptr) {
    && Opened(h, a, n, s, up) && Distinct(Node(a, n, s))
    && InHeap(h, up) && up !in Nodes(Node(a, n, s))
  }

  predicate Updatable(h: Heap, p: Ptr) {
    p in h && (h[p].left != NULL ==> h[p].left in h) && (h[p].right != NULL ==> h[p].right in h)
  }

  /** _avl_node_height_update */
  function Updated(h: Heap, p: Ptr): Heap
    requires Updatable(h, p)
  {
    h[p := h[p].(height := 1 + Max(HeightAt(h, h[p].left), HeightAt(h, h[p].right)))]
  }

  lemma RootFacts(h: Heap, t: Tree, up: Ptr)
    requires Rep(h, t, up) && Distinct(t)
    ensures InHeap(h, Root(t)) && HeightAt(h, Root(t)) == Height(t) && (t.Node? <==> Root(t) != NULL)
    ensures t.Node? ==> Root(t) in Nodes(t) && h[t.p].parent == up
    ensures NULL !in Nodes(t)
  {
    NoNull(t);
  }

  lemma {:induction false} NoNull(t: Tree)
    requires Distinct(t)
    ensures NULL !in Nodes(t)
  {
    if t.Node? { NoNull(t.l); NoNull(t.r); }
  }

  /** The facts a rotation to the left starts from: four or five nodes, all different. */
  lemma SpinLeftStart(h: Heap, a: Tree, n: Ptr, s: Tree, up: Ptr)
    requires s.Node? && Turnable(h, a, n, s, up)
    ensures InHeap(h, up) && n in h && h[n].right == s.p && s.p in h && h[s.p].left == Root(s.l)
        && InHeap(h, Root(s.l))
    ensures h[n].parent == up && n != s.p && NULL !in {n, s.p} && Root(s.l) !in {n, s.p}
    ensures up != NULL ==> up !in {n, s.p, Root(s.l)}
  {
    assert Distinct(s);
    RootFacts(h, s, n);
    RootFacts(h, s.l, s.p);
    RootFacts(h, a, n);
  }

  /** The cells a rotation to the left leaves behind once both heights are updated. */
  lemma SpinLeftCells(h: Heap, h1: Heap, a: Tree, n: Ptr, s: Tree, up: Ptr)
    requires s.Node? && Turnable(h, a, n, s, up)
    requires n in h && s.p in h && InHeap(h, Root(s.l)) && InHeap(h, up) && RotatedLeft(h, h1, n, s.p, Root(s.l), up)
    ensures s.p in h1 && h1[s.p].left == n && Updatable(h1, n) && Updatable(Updated(h1, n), s.p)
    ensures var h' := Updated(Updated(h1, n), s.p);
      && n in h' && h'[n] == Cell(Root(a), Root(s.l), s.p, 1 + Max(Height(a), Height(s.l)))
      && s.p in h' && h'[s.p] == Cell(n, Root(s.r), up, 1 + Max(1 + Max(Height(a), Height(s.l)), Height(s.r)))
      && Reparented(h, h', s.l, n) && Local(h, h', {n, s.p, Root(s.l)}, up, n, s.p)
  {
    SpinLeftStart(h, a, n, s, up);
    assert Distinct(s);
    RootFacts(h, a, n);
    RootFacts(h, s.l, s.p);
    RootFacts(h, s.r, s.p);
  }

  /** A rotation to the left with its two height updates turns the tree and touches nothing else. */
  lemma SpinLeftDone(h: Heap, h1: Heap, a: Tree, n: Ptr, s: Tree, up: Ptr)
    requires s.Node? && Turnable(h, a, n, s, up)
    requires n in h && s.p in h && InHeap(h, Root(s.l)) && InHeap(h, up) && RotatedLeft(h, h1, n, s.p, Root(s.l), up)
    ensures s.p in h1 && h1[s.p].left == n && Updatable(h1, n) && Updatable(Updated(h1, n), s.p)
    ensures Rep(Updated(Updated(h1, n), s.p), Node(Node(a, n, s.l), s.p, s.r), up)
    ensures Local(h, Updated(Updated(h1, n), s.p), Nodes(Node(a, n, s)), up, n, s.p)
  {
    hide Updated, RotatedLeft, Updatable, Height, Max, HeightAt, Reparented;
    assert Distinct(s);
    assert Nodes(s) == Nodes(s.l) + {s.p} + Nodes(s.r);
    RootFacts(h, a, n);
    RootFacts(h, s.l, s.p);
    RootFacts(h, s.r, s.p);
    RepInHeap(h, a, n);
    RepInHeap(h, s.l, s.p);
    RepInHeap(h, s.r, s.p);
    SpinLeftCells(h, h1, a, n, s, up);
    TurnL(h, Updated(Updated(h1, n), s.p), a, n, s.l, s.p, s.r, up);
  }

  /** The mirror images. */
  lemma SpinRightStart(h: Heap, s: Tree, n: Ptr, d: Tree, up: Ptr)
    requires s.Node? && Turnable(h, s, n, d, up)
    ensures InHeap(h, up) && n in h && h[n].left == s.p && s.p in h && h[s.p].right == Root(s.r)
        && InHeap(h, Root(s.r))
    ensures h[n].parent == up && n != s.p && NULL !in {n, s.p} && Root(s.r) !in {n, s.p}
    ensures up != NULL ==> up !in {n, s.p, Root(s.r)}
  {
    assert Distinct(s);
    RootFacts(h, s, n);
    RootFacts(h, s.r, s.p);
    RootFacts(h, d, n);
  }

  lemma SpinRightCells(h: Heap, h1: Heap, s: Tree, n: Ptr, d: Tree, up: Ptr)
    requires s.Node? && Turnable(h, s, n, d, up)
    requires n in h && s.p in h && InHeap(h, Root(s.r)) && InHeap(h, up) && RotatedRight(h, h1, n, s.p, Root(s.r), up)
    ensures s.p in h1 && h1[s.p].right == n && Updatable(h1, n) && Updatable(Updated(h1, n), s.p)
    ensures var h' := Updated(Updated(h1, n), s.p);
      && n in h' && h'[n] == Cell(Root(s.r), Root(d), s.p, 1 + Max(Height(s.r), Height(d)))
      && s.p in h' && h'[s.p] == Cell(Root(s.l), n, up, 1 + Max(Height(s.l), 1 + Max(Height(s.r), Height(d))))
      && Reparented(h, h', s.r, n) && Local(h, h', {n, s.p, Root(s.r)}, up, n, s.p)
  {
    SpinRightStart(h, s, n, d, up);
    assert Distinct(s);
    RootFacts(h, d, n);
    RootFacts(h, s.l, s.p);
    RootFacts(h, s.r, s.p);
  }

  lemma SpinRightDone(h: Heap, h1: Heap, s: Tree, n: Ptr, d: Tree, up: Ptr)
    requires s.Node? && Turnable(h, s, n, d, up)
    requires n in h && s.p in h && InHeap(h, Root(s.r)) && InHeap(h, up) && RotatedRight(h, h1, n, s.p, Root(s.r), up)
    ensures s.p in h1 && h1[s.p].right == n && Updatable(h1, n) && Updatable(Updated(h1, n), s.p)
    ensures Rep(Updated(Updated(h1, n), s.p), Node(s.l, s.p, Node(s.r, n, d)), up)
    ensures Local(h, Updated(Updated(h1, n), s.p), Nodes(Node(s, n, d)), up, n, s.p)
  {
    hide Updated, RotatedRight, Updatable, Height, Max, HeightAt, Reparented;
    assert Distinct(s);
    assert Nodes(s) == Nodes(s.l) + {s.p} + Nodes(s.r);
    RootFacts(h, d, n);
    RootFacts(h, s.l, s.p);
    RootFacts(h, s.r, s.p);
    RepInHeap(h, d, n);
    RepInHeap(h, s.l, s.p);
    RepInHeap(h, s.r, s.p);
    SpinRightCells(h, h1, s, n, d, up);
    TurnR(h, Updated(Updated(h1, n), s.p), s.l, s.p, s.r, n, d, up);
  }

  // ---------------------------------------------------------------- inside a context

  /** A subtree in its context, all nodes different. */
  ghost predicate Apart(c: Ctx, t: Tree) {
    CtxDistinct(c) && Distinct(t) && CtxNodes(c) !! Nodes(t)
  }

  lemma {:induction false} CtxNoNull(c: Ctx)
    requires CtxDistinct(c)
    ensures NULL !in CtxNodes(c)
    decreases c
  {
    match c
    case Top =>
    case InL(up, p, r) => CtxNoNull(up); NoNull(r);
    case InR(up, l, p) => CtxNoNull(up); NoNull(l);
  }

  /** A change inside the subtree that puts `y` at its root leaves the context right. */
  lemma CtxKept(h: Heap, h': Heap, c: Ctx, s: set<Ptr>, x: Ptr, y: Ptr, k: int, root: Ptr)
    requires RepCtx(h, c, x, k, root) && CtxDistinct(c) && x != NULL && x !in CtxNodes(c)
    requires CtxNodes(c) !! s && Local(h, h', s, Up(c), x, y)
    ensures RepCtx(h', c, y, k, HangRoot(c, y, root))
  {
    hide Height, Balanced, Distinct;
    CtxInHeap(h, c, x, k, root);
    CtxNoNull(c);
    if c.InR? { assert Rep(h, c.l, c.p); }
    HangFrame(h, h', c, x, y, k, root);
  }

  /** Either child of a node that can turn can turn itself. */
  lemma ChildTurns(h: Heap, a: Tree, n: Ptr, s: Tree, up: Ptr)
    requires Turnable(h, a, n, s, up)
    ensures a.Node? ==> Turnable(h, a.l, a.p, a.r, n) && KnowsHeights(h, a)
    ensures s.Node? ==> Turnable(h, s.l, s.p, s.r, n) && KnowsHeights(h, s)
  {
    assert Distinct(a) && Distinct(s);
    if a.Node? { RootFacts(h, a.l, a.p); RootFacts(h, a.r, a.p); }
    if s.Node? { RootFacts(h, s.l, s.p); RootFacts(h, s.r, s.p); }
  }

  ghost predicate KnowsHeights(h: Heap, t: Tree)
    requires t.Node?
  {
    && Updatable(h, t.p) && h[t.p].left == Root(t.l) && h[t.p].right == Root(t.r)
    && HeightAt(h, h[t.p].left) == Height(t.l) && HeightAt(h, h[t.p].right) == Height(t.r)
  }

  /** The inner rotation of a double one leaves the outer node ready for its own. */
  lemma InnerLeft(h: Heap, h': Heap, a: Tree, n: Ptr, s: Tree, s': Tree, up: Ptr)
    requires s.Node? && s'.Node? && Turnable(h, a, n, s, up) && Nodes(s) == Nodes(s') && Distinct(s')
    requires Local(h, h', Nodes(s), n, s.p, s'.p) && Rep(h', s', n)
    ensures Turnable(h', a, n, s', up) && Nodes(Node(a, n, s')) == Nodes(Node(a, n, s))
  {
    RootFacts(h, a, n);
    RootFacts(h, s, n);
    RepInHeap(h, a, n);
    RepFrame(h, h', a, n);
  }

  lemma InnerRight(h: Heap, h': Heap, s: Tree, s': Tree, n: Ptr, d: Tree, up: Ptr)
    requires s.Node? && s'.Node? && Turnable(h, s, n, d, up) && Nodes(s) == Nodes(s') && Distinct(s')
    requires Local(h, h', Nodes(s), n, s.p, s'.p) && Rep(h', s', n)
    ensures Turnable(h', s', n, d, up) && Nodes(Node(s', n, d)) == Nodes(Node(s, n, d))
  {
    RootFacts(h, d, n);
    RootFacts(h, s, n);
    RepInHeap(h, d, n);
    RepFrame(h, h', d, n);
  }

  // ---------------------------------------------------------------- climbing

  /** The subtree and its surroundings, right but for the height the surroundings expect. */
  ghost predicate Focused(h: Heap, c: Ctx, t: Tree, k: int, root: Ptr) {
    Rep(h, t, Up(c)) && Balanced(t) && RepCtx(h, c, Root(t), k, root) && Apart(c, t)
  }

  /** A node in its surroundings whose cached height and balance may be off. */
  ghost predicate Tipped(h: Heap, c: Ctx, a: Tree, n: Ptr, s: Tree, k: int, root: Ptr) {
    && Opened(h, a, n, s, Up(c)) && Balanced(a) && Balanced(s)
    && RepCtx(h, c, n, k, root) && Apart(c, Node(a, n, s))
  }

  ghost predicate Outside(h: Heap, h': Heap, s: set<Ptr>) {
    h'.Keys == h.Keys && forall z :: z in h && z !in s && z != NULL ==> h'[z] == h[z]
  }

  /** One level up. */
  function LeftOf(c: Ctx, t: Tree): Tree requires !c.Top? { if c.InL? then t else c.l }
  function RightOf(c: Ctx, t: Tree): Tree requires !c.Top? { if c.InL? then c.r else t }
  function Above(c: Ctx, t: Tree): Tree requires !c.Top? { Node(LeftOf(c, t), c.p, RightOf(c, t)) }
  function Sibling(c: Ctx): Tree requires !c.Top? { if c.InL? then c.r else c.l }
  function AboveHeight(c: Ctx, k: int): int requires !c.Top? { 1 + Max(k, Height(Sibling(c))) }

  lemma TippedTurns(h: Heap, c: Ctx, a: Tree, n: Ptr, s: Tree, k: int, root: Ptr)
    requires Tipped(h, c, a, n, s, k, root)
    ensures Turnable(h, a, n, s, Up(c)) && n != NULL && n !in CtxNodes(c) && NULL !in CtxNodes(c)
    ensures Up(c) == NULL <==> c.Top?
  {
    hide Rep, Height, Balanced;
    CtxInHeap(h, c, n, k, root);
    CtxNoNull(c);
    if c.Top? { NoNull(Node(a, n, s)); }
  }

  /** After a turn of the subtree at `n` into `t'`. */
  lemma Turned(h: Heap, h': Heap, c: Ctx, a: Tree, n: Ptr, s: Tree, t': Tree, k: int, root: Ptr)
    requires Tipped(h, c, a, n, s, k, root) && t'.Node? && Rep(h', t', Up(c)) && Balanced(t')
    requires Distinct(t') && Nodes(t') == Nodes(Node(a, n, s))
    requires Local(h, h', Nodes(Node(a, n, s)), Up(c), n, t'.p)
    ensures Focused(h', c, t', k, HangRoot(c, t'.p, root))
    ensures Outside(h, h', CtxNodes(c) + Nodes(Node(a, n, s)))
  {
    hide Height, Balanced, Rep, Distinct, RepCtx, CtxDistinct;
    TippedTurns(h, c, a, n, s, k, root);
    CtxKept(h, h', c, Nodes(Node(a, n, s)), n, t'.p, k, root);
  }

  /** Two changes, the inner one at the child of `n`, seen as one. */
  lemma LocalTwice(h: Heap, h1: Heap, h2: Heap, a: Tree, n: Ptr, s: Tree, up: Ptr, x: Ptr, x': Ptr, y: Ptr)
    requires Local(h, h1, Nodes(s), n, x, x') && Local(h1, h2, Nodes(Node(a, n, s)), up, n, y)
    requires up !in Nodes(Node(a, n, s)) && InHeap(h, up)
    ensures Local(h, h2, Nodes(Node(a, n, s)), up, n, y)
  {}

  lemma LocalTwiceRight(h: Heap, h1: Heap, h2: Heap, s: Tree, n: Ptr, d: Tree, up: Ptr, x: Ptr, x': Ptr, y: Ptr)
    requires Local(h, h1, Nodes(s), n, x, x') && Local(h1, h2, Nodes(Node(s, n, d)), up, n, y)
    requires up !in Nodes(Node(s, n, d)) && InHeap(h, up)
    ensures Local(h, h2, Nodes(Node(s, n, d)), up, n, y)
  {}

  lemma ApartUp(c: Ctx, t: Tree)
    requires !c.Top? && Apart(c, t)
    ensures Apart(c.up, Above(c, t)) && Distinct(t) && Distinct(Sibling(c)) && c.p in CtxNodes(c) + Nodes(t)
  {
    hide Height;
  }

  lemma TippedUp(h: Heap, c: Ctx, t: Tree, k: int, root: Ptr)
    requires Focused(h, c, t, k, root) && !c.Top?
    ensures Tipped(h, c.up, LeftOf(c, t), c.p, RightOf(c, t), AboveHeight(c, k), root)
    ensures c.p in h && h[c.p].height == AboveHeight(c, k)
    ensures Close(k, Height(Sibling(c))) && Balanced(t) && Balanced(Sibling(c))
  {
    ApartUp(c, t);
    hide Apart, Distinct, CtxDistinct, Nodes, CtxNodes, Balanced, Height;
  }

  /** What the climbing loop sees at the next node. */
  lemma StepUp(h: Heap, c: Ctx, t: Tree, k: int, root: Ptr)
    requires Focused(h, c, t, k, root) && !c.Top?
    ensures Tipped(h, c.up, LeftOf(c, t), c.p, RightOf(c, t), AboveHeight(c, k), root)
    ensures c.p in h && h[c.p].height == AboveHeight(c, k) && Updatable(h, c.p)
    ensures HeightAt(h, h[c.p].left) == Height(LeftOf(c, t)) && HeightAt(h, h[c.p].right) == Height(RightOf(c, t))
    ensures Close(k, Height(Sibling(c))) && Balanced(t) && Balanced(Sibling(c))
    ensures Height(Above(c, t)) == 1 + Max(Height(LeftOf(c, t)), Height(RightOf(c, t)))
    ensures c.p in CtxNodes(c) + Nodes(t)
  {
    TippedUp(h, c, t, k, root);
    ApartUp(c, t);
    HeightOfNode(LeftOf(c, t), c.p, RightOf(c, t));
    hide Balanced, Apart, Distinct, CtxDistinct, Nodes, CtxNodes, RepCtx, Height, Rep;
    RootFacts(h, LeftOf(c, t), c.p);
    RootFacts(h, RightOf(c, t), c.p);
  }

  lemma Regrouped(c: Ctx, t: Tree)
    requires !c.Top?
    ensures Before(c.up) + Inorder(Above(c, t)) + After(c.up) == Before(c) + Inorder(t) + After(c)
    ensures CtxNodes(c.up) + Nodes(Above(c, t)) == CtxNodes(c) + Nodes(t)
  {
    match c
    case InL(up, p, r) => Regroup(Before(up), Inorder(t), [p], Inorder(r), After(up));
    case InR(up, l, p) => Regroup(Before(up), Inorder(l), [p], Inorder(t), After(up));
  }

  /** Writing a node's height disturbs nothing else. */
  lemma Remark(h: Heap, c: Ctx, a: Tree, n: Ptr, s: Tree, k: int, root: Ptr, v: int)
    requires Tipped(h, c, a, n, s, k, root) && n in h
    ensures Tipped(h[n := h[n].(height := v)], c, a, n, s, k, root)
  {
    hide Balanced, Height;
    var h' := h[n := h[n].(height := v)];
    RepInHeap(h, a, n);
    RepInHeap(h, s, n);
    CtxInHeap(h, c, n, k, root);
    RepFrame(h, h', a, n);
    RepFrame(h, h', s, n);
    CtxFrame(h, h', c, n, k, root);
  }

  /** A node with the right height and a tolerable balance is settled. */
  lemma Settled(h: Heap, c: Ctx, a: Tree, n: Ptr, s: Tree, k: int, root: Ptr)
    requires Tipped(h, c, a, n, s, k, root) && h[n].height == Height(Node(a, n, s))
    requires Close(Height(a), Height(s))
    ensures Focused(h, c, Node(a, n, s), k, root)
  {
    hide RepCtx;
  }

  lemma HeightOfNode(a: Tree, n: Ptr, s: Tree)
    ensures Height(Node(a, n, s)) == 1 + Max(Height(a), Height(s))
  {}

  /** The height reached one level up is at most one away from what is expected there, and
      not below it when the climb started from a grown subtree. */
  lemma ClimbHeights(c: Ctx, t: Tree, k: int)
    requires !c.Top? && Close(Height(t), k) && Close(k, Height(Sibling(c))) && Balanced(t) && Balanced(Sibling(c))
    ensures var a, s := LeftOf(c, t), RightOf(c, t); var k' := AboveHeight(c, k); var d := Height(a) - Height(s);
      && -2 <= d <= 2
      && (Close(Height(a), Height(s)) ==> Close(Height(Above(c, t)), k'))
      && (d == -2 ==> s.Node? && (Height(s.l) > Height(s.r) ==> s.l.Node?) && Close(Height(FixL(a, c.p, s)), k'))
      && (d == 2 ==> a.Node? && (Height(a.l) < Height(a.r) ==> a.r.Node?) && Close(Height(FixR(a, c.p, s)), k'))
    ensures var a, s := LeftOf(c, t), RightOf(c, t); var k' := AboveHeight(c, k); var d := Height(a) - Height(s);
      Height(t) >= k ==>
      && (Height(Above(c, t)) == k' ==> -1 <= d <= 1)
      && Height(Above(c, t)) >= k'
      && (d == -2 ==> Height(FixL(a, c.p, s)) >= k')
      && (d == 2 ==> Height(FixR(a, c.p, s)) >= k')
  {
    hide Balanced, FixL, FixR, Height;
    var a, s := LeftOf(c, t), RightOf(c, t);
    HeightOfNode(a, c.p, s);
    if Height(a) - Height(s) == -2 { FixLBalances(a, c.p, s); }
    if Height(a) - Height(s) == 2 { FixRBalances(a, c.p, s); }
  }

  /** Where a climb that found nothing left to repair ends. */
  lemma Finished(h: Heap, c: Ctx, t: Tree, root: Ptr)
    requires Focused(h, c, t, Height(t), root)
    ensures Whole(h, Plug(c, t), root)
    ensures Inorder(Plug(c, t)) == Before(c) + Inorder(t) + After(c) && Nodes(Plug(c, t)) == CtxNodes(c) + Nodes(t)
  {
    CloseUp(h, c, t, root);
    InorderPlug(c, t);
    NodesPlug(c, t);
    DistinctPlug(c, t);
  }

  /** An AVL tree in memory: links, parent links, exact heights, balance. */
  ghost predicate Whole(h: Heap, t: Tree, root: Ptr) {
    Rep(h, t, NULL) && Balanced(t) && Distinct(t) && root == Root(t)
  }

  lemma AtTop(h: Heap, c: Ctx, t: Tree, k: int, root: Ptr)
    requires Focused(h, c, t, k, root) && Up(c) == NULL
    ensures Focused(h, c, t, Height(t), root)
  {}

  lemma FocusFacts(h: Heap, c: Ctx, t: Tree, k: int, root: Ptr)
    requires Focused(h, c, t, k, root)
    ensures t.Node? ==> t.p in h && h[t.p].parent == Up(c)
    ensures Up(c) == NULL <==> c.Top?
  {}

  lemma OutsideSelf(h: Heap, s: set<Ptr>)
    ensures Outside(h, h, s)
  {}

  lemma OutsideTwice(h: Heap, h1: Heap, h2: Heap, s: set<Ptr>)
    requires Outside(h, h1, s) && Outside(h1, h2, s)
    ensures Outside(h, h2, s)
  {}

  lemma OutsideOne(h: Heap, h1: Heap, p: Ptr, v: Cell, s: set<Ptr>)
    requires Outside(h, h1, s) && p in s && p in h1
    ensures Outside(h, h1[p := v], s)
  {}

  /** A fresh leaf, its height just written. */
  lemma LeafFocus(h: Heap, c: Ctx, leaf: Ptr, root: Ptr)
    requires Links(h, leaf, NULL, NULL, Up(c)) && RepCtx(h, c, leaf, 0, root) && Apart(c, Node(Leaf, leaf, Leaf))
    ensures leaf != NULL && leaf in h && Focused(h[leaf := h[leaf].(height := 1)], c, Node(Leaf, leaf, Leaf), 0, root)
    ensures Height(Node(Leaf, leaf, Leaf)) == 1
    ensures Inorder(Node(Leaf, leaf, Leaf)) == [leaf] && Nodes(Node(Leaf, leaf, Leaf)) == {leaf}
  {
    assert Distinct(Node(Leaf, leaf, Leaf));
    var h' := h[leaf := h[leaf].(height := 1)];
    assert h'[leaf] == Cell(Root(Leaf), Root(Leaf), Up(c), Height(Node(Leaf, leaf, Leaf)));
    CtxInHeap(h, c, leaf, 0, root);
    CtxFrame(h, h', c, leaf, 0, root);
  }
}
