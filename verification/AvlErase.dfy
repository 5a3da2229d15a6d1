/** Searching an AVL tree, and taking a node out of it. */
module AvlErase {
  import opened AvlShape
  import opened AvlTurn

  // ---------------------------------------------------------------- descending

  lemma ApartLeft(c: Ctx, t: Tree)
    requires t.Node? && Apart(c, t)
    ensures Apart(InL(c, t.p, t.r), t.l)
  {
    hide Height;
  }

  lemma ApartRight(c: Ctx, t: Tree)
    requires t.Node? && Apart(c, t)
    ensures Apart(InR(c, t.l, t.p), t.r)
  {
    hide Height;
  }

  lemma DownLeft(h: Heap, c: Ctx, t: Tree, root: Ptr)
    requires t.Node? && Focused(h, c, t, Height(t), root)
    ensures Focused(h, InL(c, t.p, t.r), t.l, Height(t.l), root)
  {
    ApartLeft(c, t);
    hide Apart, Distinct, CtxDistinct, Nodes, CtxNodes;
  }

  lemma DownRight(h: Heap, c: Ctx, t: Tree, root: Ptr)
    requires t.Node? && Focused(h, c, t, Height(t), root)
    ensures Focused(h, InR(c, t.l, t.p), t.r, Height(t.r), root)
  {
    ApartRight(c, t);
    hide Apart, Distinct, CtxDistinct, Nodes, CtxNodes;
  }

  /** What the cell of the node at the focus says. */
  lemma CellAt(h: Heap, c: Ctx, t: Tree, root: Ptr)
    requires t.Node? && Focused(h, c, t, Height(t), root)
    ensures t.p in h && h[t.p].left == Root(t.l) && h[t.p].right == Root(t.r)
    ensures h[t.p].parent == Up(c) && h[t.p].height == Height(t) && t.p != NULL
    ensures t.l.Node? <==> Root(t.l) != NULL
    ensures t.r.Node? <==> Root(t.r) != NULL
  {
    hide Balanced, RepCtx, CtxDistinct, CtxNodes, Height;
    RootFacts(h, t.l, t.p);
    RootFacts(h, t.r, t.p);
  }

  /** Going down keeps tree and surroundings right. */
  lemma StepDown(h: Heap, c: Ctx, t: Tree, root: Ptr)
    requires t.Node? && Focused(h, c, t, Height(t), root)
    ensures Focused(h, InL(c, t.p, t.r), t.l, Height(t.l), root)
    ensures Focused(h, InR(c, t.l, t.p), t.r, Height(t.r), root)
    ensures t.p in h && h[t.p].left == Root(t.l) && h[t.p].right == Root(t.r)
    ensures h[t.p].parent == Up(c) && h[t.p].height == Height(t) && t.p != NULL
    ensures t.l.Node? <==> Root(t.l) != NULL
    ensures t.r.Node? <==> Root(t.r) != NULL
  {
    hide Focused, Height, Root, Up;
    DownLeft(h, c, t, root);
    DownRight(h, c, t, root);
    CellAt(h, c, t, root);
  }

  /** Every node of the tree has its place. */
  lemma {:induction false} Locate(h: Heap, c: Ctx, t: Tree, x: Ptr, root: Ptr) returns (c': Ctx, t': Tree)
    requires Focused(h, c, t, Height(t), root) && x in Nodes(t)
    ensures Plug(c', t') == Plug(c, t) && t'.Node? && t'.p == x && Focused(h, c', t', Height(t'), root)
    decreases t
  {
    hide Focused, Height;
    if t.p == x {
      c', t' := c, t;
    } else {
      StepDown(h, c, t, root);
      if x in Nodes(t.l) {
        c', t' := Locate(h, InL(c, t.p, t.r), t.l, x, root);
      } else {
        c', t' := Locate(h, InR(c, t.l, t.p), t.r, x, root);
      }
    }
  }

  lemma WholeIsFocused(h: Heap, t: Tree, root: Ptr)
    requires Whole(h, t, root)
    ensures Focused(h, Top, t, Height(t), root)
    ensures t.Node? <==> root != NULL
  {}

  // ---------------------------------------------------------------- cutting out one node

  /** The one child a node has, if it has one. */
  function OnlyChild(t: Tree): Tree
    requires t.Node?
  {
    if t.l.Leaf? then t.r else t.l
  }

  /** A node with at most one child is replaced by that child. */
  ghost predicate Cut(h: Heap, h': Heap, c: Ctx, t: Tree)
    requires t.Node?
  {
    && Local(h, h', {Root(OnlyChild(t))}, Up(c), t.p, Root(OnlyChild(t)))
    && Reparented(h, h', OnlyChild(t), Up(c))
  }

  lemma CutDone(h: Heap, h': Heap, c: Ctx, t: Tree, root: Ptr)
    requires t.Node? && (t.l.Leaf? || t.r.Leaf?) && Focused(h, c, t, Height(t), root) && Cut(h, h', c, t)
    ensures Focused(h', c, OnlyChild(t), Height(t), HangRoot(c, Root(OnlyChild(t)), root))
    ensures Height(t) == Height(OnlyChild(t)) + 1 && Nodes(t) == Nodes(OnlyChild(t)) + {t.p}
        && t.p !in Nodes(OnlyChild(t))
    ensures Outside(h, h', CtxNodes(c) + Nodes(OnlyChild(t)))
  {
    var s := OnlyChild(t);
    CutSizes(t);
    CutCtx(h, h', c, t, root);
    CutTree(h, h', c, t, root);
  }

  /** The pointers at work when a node is cut out are all different. */
  lemma CutStart(h: Heap, c: Ctx, t: Tree, root: Ptr)
    requires t.Node? && (t.l.Leaf? || t.r.Leaf?) && Focused(h, c, t, Height(t), root)
    ensures InHeap(h, Up(c)) && InHeap(h, Root(OnlyChild(t))) && (OnlyChild(t).Node? <==> Root(OnlyChild(t)) != NULL)
    ensures Root(OnlyChild(t)) != t.p && (Up(c) != NULL ==> Up(c) !in {t.p, Root(OnlyChild(t))})
    ensures Up(c) == NULL <==> c.Top?
  {
    hide Height, Balanced;
    FocusFacts(h, c, t, Height(t), root);
    CtxInHeap(h, c, t.p, Height(t), root);
    RootFacts(h, OnlyChild(t), t.p);
  }

  lemma CutSizes(t: Tree)
    requires t.Node? && (t.l.Leaf? || t.r.Leaf?) && Distinct(t)
    ensures Height(t) == Height(OnlyChild(t)) + 1 && Nodes(t) == Nodes(OnlyChild(t)) + {t.p}
        && t.p !in Nodes(OnlyChild(t))
  {}

  lemma CutTree(h: Heap, h': Heap, c: Ctx, t: Tree, root: Ptr)
    requires t.Node? && (t.l.Leaf? || t.r.Leaf?) && Focused(h, c, t, Height(t), root) && Cut(h, h', c, t)
    ensures Rep(h', OnlyChild(t), Up(c)) && Balanced(OnlyChild(t)) && Apart(c, OnlyChild(t))
  {
    hide RepCtx, CtxDistinct;
    var s := OnlyChild(t);
    FocusFacts(h, c, t, Height(t), root);
    RootFacts(h, s, t.p);
    RepInHeap(h, s, t.p);
    Reparent(h, h', s, t.p, Up(c));
  }

  lemma CutCtx(h: Heap, h': Heap, c: Ctx, t: Tree, root: Ptr)
    requires t.Node? && (t.l.Leaf? || t.r.Leaf?) && Focused(h, c, t, Height(t), root) && Cut(h, h', c, t)
    ensures RepCtx(h', c, Root(OnlyChild(t)), Height(t), HangRoot(c, Root(OnlyChild(t)), root))
    ensures Outside(h, h', CtxNodes(c) + Nodes(OnlyChild(t)))
  {
    hide RepCtx, CtxDistinct, Height, Balanced;
    var s := OnlyChild(t);
    RootFacts(h, s, t.p);
    CtxNoNull(c);
    assert t.p in Nodes(t) && Nodes(s) <= Nodes(t);
    CtxKept(h, h', c, {Root(s)}, t.p, Root(s), Height(t), root);
  }

  // ---------------------------------------------------------------- the successor takes the place

  /** `c` is reached from `base` by going left only. */
  predicate Below(c: Ctx, base: Ctx) {
    c == base || (c.InL? && Below(c.up, base))
  }

  /** The same surroundings with another node in the place of `x`, which heads the path. */
  function Renamed(c: Ctx, base: Ctx, m: Ptr): Ctx
    requires Below(c, base) && base.InR?
  {
    if c == base then InR(base.up, base.l, m) else InL(Renamed(c.up, base, m), c.p, c.r)
  }

  /** The successor `m` got the cell of `base.p`, and its neighbours point at `m`. */
  ghost predicate Installed(h: Heap, h': Heap, base: Ctx, m: Ptr)
    requires base.InR?
  {
    && base.p in h
    && Local(h, h', {m, Root(base.l), h[base.p].right}, Up(base.up), base.p, m)
    && m in h' && h'[m] == h[base.p]
    && Reparented(h, h', base.l, m)
    && (h[base.p].right != NULL ==> h[base.p].right in h && h'[h[base.p].right] == h[h[base.p].right].(parent := m))
  }

  /** The right child of the node that is replaced lies on the path. */
  lemma {:induction false} RightOnPath(h: Heap, c: Ctx, base: Ctx, child: Ptr, k: int, root: Ptr)
    requires Below(c, base) && base.InR? && RepCtx(h, c, child, k, root)
    ensures base.p in h && base.p in CtxNodes(c) && CtxNodes(base) <= CtxNodes(c)
    ensures if c == base then h[base.p].right == child else h[base.p].right in CtxNodes(c)
    decreases c
  {
    if c != base {
      RightOnPath(h, c.up, base, c.p, AboveHeight(c, k), root);
    }
  }

  /** The base of the path, with the successor in place. */
  lemma InstalledBase(h: Heap, h': Heap, base: Ctx, m: Ptr, child: Ptr, k: int, root: Ptr)
    requires base.InR? && RepCtx(h, base, child, k, root) && CtxDistinct(base)
    requires m != NULL && m !in CtxNodes(base) && child !in CtxNodes(base) && Installed(h, h', base, m)
    ensures RepCtx(h', InR(base.up, base.l, m), child, k, HangRoot(base.up, m, root))
  {
    hide Height, Balanced, Distinct;
    var l, up := base.l, base.up;
    var k' := 1 + Max(Height(l), k);
    assert Rep(h, l, base.p) && RepCtx(h, up, base.p, k', root);
    assert Distinct(l) && CtxDistinct(up);
    RootFacts(h, l, base.p);
    RepInHeap(h, l, base.p);
    CtxInHeap(h, up, base.p, k', root);
    CtxNoNull(base);
    Reparent(h, h', l, base.p, m);
    CtxKept(h, h', up, {m, Root(l), child}, base.p, m, k', root);
  }

  lemma {:induction false} InstalledPath(h: Heap, h': Heap, c: Ctx, base: Ctx, m: Ptr, child: Ptr, k: int, root: Ptr)
    requires Below(c, base) && base.InR? && RepCtx(h, c, child, k, root) && CtxDistinct(c)
    requires m != NULL && m !in CtxNodes(c) && child !in CtxNodes(c) && Installed(h, h', base, m)
    ensures RepCtx(h', Renamed(c, base, m), child, k, HangRoot(base.up, m, root))
    decreases c
  {
    if c == base {
      InstalledBase(h, h', base, m, child, k, root);
    } else {
      hide Height, Balanced, Distinct;
      var k' := AboveHeight(c, k);
      assert c.p !in CtxNodes(c.up) && m !in CtxNodes(c.up);
      InstalledPath(h, h', c.up, base, m, c.p, k', root);
      InstalledFrame(h, h', c, base, m, child, k, root);
    }
  }

  /** One node of the path: only the one next to the replaced node changes, its parent link. */
  lemma InstalledFrame(h: Heap, h': Heap, c: Ctx, base: Ctx, m: Ptr, child: Ptr, k: int, root: Ptr)
    requires Below(c, base) && base.InR? && c != base && RepCtx(h, c, child, k, root) && CtxDistinct(c)
    requires m != NULL && m !in CtxNodes(c) && child !in CtxNodes(c) && Installed(h, h', base, m)
    ensures c.p in h' && h'[c.p] == h[c.p].(parent := Up(Renamed(c.up, base, m))) && Rep(h', c.r, c.p)
  {
    hide Height, Balanced, Distinct;
    var k' := 1 + Max(k, Height(c.r));
    assert c.p in h && Rep(h, c.r, c.p) && RepCtx(h, c.up, c.p, k', root);
    RightOnPath(h, c.up, base, c.p, k', root);
    CtxNoNull(c);
    RepInHeap(h, c.r, c.p);
    RepFrame(h, h', c.r, c.p);
  }

  /** What the path is made of, before and after the successor took over. */
  lemma {:induction false} RenamedParts(c: Ctx, base: Ctx, m: Ptr)
    requires Below(c, base) && base.InR? && CtxDistinct(c) && m != NULL && m !in CtxNodes(c)
    ensures base.p in CtxNodes(c) && base.p != NULL
    ensures CtxNodes(Renamed(c, base, m)) == CtxNodes(c) - {base.p} + {m} && CtxDistinct(Renamed(c, base, m))
    ensures Before(c) == Before(base.up) + Inorder(base.l) + [base.p]
    ensures Before(Renamed(c, base, m)) == Before(base.up) + Inorder(base.l) + [m]
    ensures After(Renamed(c, base, m)) == After(c)
    decreases c
  {
    if c != base { RenamedParts(c.up, base, m); }
  }

  /** The successor takes the place of the node above it. */
  lemma InstalledDone(h: Heap, h': Heap, c: Ctx, base: Ctx, m: Ptr, s: Tree, k: int, root: Ptr)
    requires Below(c, base) && base.InR? && Focused(h, c, s, k, root)
    requires m != NULL && m !in CtxNodes(c) && m !in Nodes(s) && Installed(h, h', base, m)
    ensures Focused(h', Renamed(c, base, m), s, k, HangRoot(base.up, m, root))
    ensures Up(Renamed(c, base, m)) == if Up(c) == base.p then m else Up(c)
    ensures Outside(h, h', CtxNodes(c) + Nodes(s) + {m})
  {
    hide Rep, RepCtx, CtxDistinct, Height, Balanced, Distinct, Installed, Before, After, Inorder, Renamed, Outside,
        Nodes, CtxNodes, Below;
    RenamedParts(c, base, m);
    CtxNoNull(c);
    RootFacts(h, s, Up(c));
    InstalledPath(h, h', c, base, m, Root(s), k, root);
    InstalledSubtree(h, h', c, base, m, s, k, root);
  }

  lemma InstalledSubtree(h: Heap, h': Heap, c: Ctx, base: Ctx, m: Ptr, s: Tree, k: int, root: Ptr)
    requires Below(c, base) && base.InR? && Focused(h, c, s, k, root)
    requires m != NULL && m !in CtxNodes(c) && m !in Nodes(s) && Installed(h, h', base, m)
    ensures Rep(h', s, Up(Renamed(c, base, m)))
    ensures Up(Renamed(c, base, m)) == if Up(c) == base.p then m else Up(c)
    ensures Outside(h, h', CtxNodes(c) + Nodes(s) + {m})
  {
    hide Height, Balanced, RepCtx;
    RightOnPath(h, c, base, Root(s), k, root);
    RootFacts(h, s, Up(c));
    RepInHeap(h, s, Up(c));
    CtxNoNull(c);
    if c == base {
      Reparent(h, h', s, Up(c), m);
    } else {
      RepFrame(h, h', s, Up(c));
      assert c.p != base.p by { RightOnPathUp(c, base); }
    }
  }

  lemma {:induction false} RightOnPathUp(c: Ctx, base: Ctx)
    requires Below(c, base) && base.InR? && CtxDistinct(c)
    ensures CtxNodes(base) <= CtxNodes(c) && base.p in CtxNodes(c) && (c != base ==> c.p != base.p)
    decreases c
  {
    if c != base { RightOnPathUp(c.up, base); }
  }

  /** The pointers at work when the successor `m` takes the place of `base.p`. */
  lemma InstalledStart(h: Heap, c: Ctx, base: Ctx, m: Ptr, s: Tree, k: int, root: Ptr)
    requires Below(c, base) && base.InR? && Focused(h, c, s, k, root) && m != NULL && m !in CtxNodes(c)
        && m !in Nodes(s)
    ensures base.p in h && Links(h, base.p, Root(base.l), h[base.p].right, Up(base.up)) && base.p != NULL
    ensures InHeap(h, Root(base.l)) && InHeap(h, h[base.p].right) && InHeap(h, Up(base.up))
    ensures base.l.Node? <==> Root(base.l) != NULL
    ensures var r := h[base.p].right; m !in {base.p, Root(base.l), r, Up(base.up)} && r != base.p
    ensures var r := h[base.p].right; r != NULL ==> r !in {Root(base.l), Up(base.up)}
    ensures Root(base.l) != base.p && Up(base.up) != base.p
    ensures base.l.Node? ==> Root(base.l) != Up(base.up)
    ensures Up(base.up) == NULL <==> base.up.Top?
  {
    hide Height, Balanced;
    CtxNoNull(c);
    CtxInHeap(h, c, Root(s), k, root);
    RootFacts(h, s, Up(c));
    PathStart(h, c, base, Root(s), k, root);
  }

  lemma {:induction false} PathStart(h: Heap, c: Ctx, base: Ctx, child: Ptr, k: int, root: Ptr)
    requires Below(c, base) && base.InR? && CtxDistinct(c) && RepCtx(h, c, child, k, root)
    requires child !in CtxNodes(c)
    ensures CtxNodes(base) <= CtxNodes(c) && base.p in CtxNodes(base) && CtxDistinct(base) && base.p in h
    ensures Links(h, base.p, Root(base.l), h[base.p].right, Up(base.up)) && Rep(h, base.l, base.p)
    ensures h[base.p].right !in CtxNodes(base)
    ensures h[base.p].right == child || h[base.p].right in CtxNodes(c)
    decreases c
  {
    hide Height, Balanced;
    if c != base {
      PathStart(h, c.up, base, c.p, AboveHeight(c, k), root);
    }
  }

  /** Exchanging the node with its successor and dropping it leaves the rest in order. */
  lemma SuccessorParts(h: Heap, c: Ctx, t: Tree, c': Ctx, t': Tree, root: Ptr)
    requires t.Node? && Focused(h, c, t, Height(t), root)
    requires t'.Node? && t'.l.Leaf? && Focused(h, c', t', Height(t'), root)
    requires Below(c', InR(c, t.l, t.p)) && Plug(c', t') == Plug(c, t)
    ensures t'.p != NULL && t'.p !in CtxNodes(c') && !c'.Top?
    ensures var d := Renamed(c', InR(c, t.l, t.p), t'.p);
      && Before(d) + Inorder(t'.r) + After(d) == Before(c) + Inorder(t.l) + (Inorder(t.r) + After(c))
      && CtxNodes(d) + Nodes(t'.r) == CtxNodes(c) + Nodes(t) - {t.p}
    ensures CtxNodes(c') + Nodes(t'.r) + {t'.p} == CtxNodes(c) + Nodes(t)
  {
    hide Height, Balanced, Rep, RepCtx, CtxNodes, Nodes, Inorder, Before, After, Distinct, CtxDistinct, Plug, Renamed;
    var x, m := t.p, t'.p;
    LeftmostParts(t');
    TreeParts(t);
    RenamedParts(c', InR(c, t.l, x), m);
    NodesPlug(c, t);
    NodesPlug(c', t');
    InorderPlug(c, t);
    InorderPlug(c', t');
    SwapSets(CtxNodes(c'), Nodes(t'.r), m, x, CtxNodes(c) + Nodes(t));
    SwapOrders(Before(c), Inorder(t.l), Inorder(t.r), After(c), x, m, Inorder(t'.r), After(c'));
  }

  lemma LeftmostParts(t: Tree)
    requires t.Node? && t.l.Leaf? && Distinct(t)
    ensures t.p != NULL && Nodes(t) == {t.p} + Nodes(t.r) && t.p in Nodes(t) && Inorder(t) == [t.p] + Inorder(t.r)
  {}

  lemma TreeParts(t: Tree)
    requires t.Node?
    ensures Inorder(t) == Inorder(t.l) + [t.p] + Inorder(t.r) && Nodes(t) == Nodes(t.l) + {t.p} + Nodes(t.r)
  {}

  lemma SwapSets(c: set<Ptr>, r: set<Ptr>, m: Ptr, x: Ptr, all: set<Ptr>)
    requires c + ({m} + r) == all && x in c && c !! {m} + r
    ensures (c - {x} + {m}) + r == all - {x} && c + r + {m} == all
  {}

  lemma SwapOrders(a: seq<Ptr>, l: seq<Ptr>, r: seq<Ptr>, z: seq<Ptr>, x: Ptr, m: Ptr, s: seq<Ptr>, b: seq<Ptr>)
    requires (a + l + [x]) + ([m] + s) + b == a + (l + [x] + r) + z
    ensures (a + l + [m]) + s + b == a + l + (r + z)
  {
    SwapFront(a + l, x, m, s, b, r + z, a + (l + [x] + r) + z);
  }

  lemma SwapFront(a: seq<Ptr>, x: Ptr, m: Ptr, r: seq<Ptr>, b: seq<Ptr>, tail: seq<Ptr>, all: seq<Ptr>)
    requires (a + [x]) + ([m] + r) + b == all && all == a + [x] + tail
    ensures (a + [m]) + r + b == a + tail
  {
    assert tail == all[|a| + 1..];
    assert [m] + r + b == all[|a| + 1..];
  }

  lemma OutsideBoth(h: Heap, h1: Heap, h2: Heap, s: set<Ptr>, m: Ptr, all: set<Ptr>)
    requires Outside(h, h1, s) && Outside(h1, h2, s + {m}) && s + {m} == all
    ensures Outside(h, h2, all)
  {}

  /** Taking out a node with at most one child leaves the rest in order. */
  lemma CutParts(h: Heap, c: Ctx, t: Tree, root: Ptr)
    requires t.Node? && (t.l.Leaf? || t.r.Leaf?) && Focused(h, c, t, Height(t), root)
    ensures Before(c) + Inorder(OnlyChild(t)) + After(c) == Before(c) + Inorder(t.l) + (Inorder(t.r) + After(c))
    ensures CtxNodes(c) + Nodes(OnlyChild(t)) == CtxNodes(c) + Nodes(t) - {t.p}
    ensures Height(t) == Height(OnlyChild(t)) + 1
  {
    hide RepCtx, CtxDistinct, Rep, Balanced, CtxNodes, Before, After;
    CutSizes(t);
    TreeParts(t);
    EmptySides(t);
    hide Inorder, Nodes, Height, Distinct;
    DropEmpty(Before(c), Inorder(t.l), Inorder(t.r), After(c));
  }

  lemma EmptySides(t: Tree)
    requires t.Node?
    ensures t.l.Leaf? ==> Inorder(t.l) == []
    ensures t.r.Leaf? ==> Inorder(t.r) == []
  {}

  lemma DropEmpty(a: seq<Ptr>, l: seq<Ptr>, r: seq<Ptr>, z: seq<Ptr>)
    ensures l == [] ==> a + r + z == a + l + (r + z)
    ensures r == [] ==> a + l + z == a + l + (r + z)
  {}

  lemma OutsideGrow(h: Heap, h1: Heap, h2: Heap, s: set<Ptr>, all: set<Ptr>)
    requires Outside(h, h1, all) && Outside(h1, h2, s) && s <= all
    ensures Outside(h, h2, all)
  {}

  lemma OutsideWiden(h: Heap, h1: Heap, s: set<Ptr>, all: set<Ptr>)
    requires Outside(h, h1, s) && s <= all
    ensures Outside(h, h1, all)
  {}

  // ---------------------------------------------------------------- nodes outside the tree

  lemma AttachStart(h: Heap, c: Ctx, node: Ptr, root: Ptr)
    requires Focused(h, c, Leaf, 0, root) && node != NULL && node !in CtxNodes(c)
    ensures !c.Top? ==> c.p in h && c.p != node && c.p != NULL
  {
    CtxInHeap(h, c, NULL, 0, root);
  }

  lemma AttachDone(h: Heap, h': Heap, c: Ctx, node: Ptr, root: Ptr)
    requires Focused(h, c, Leaf, 0, root) && node != NULL && node !in CtxNodes(c) && node in h
    requires node in h' && h'[node] == Cell(NULL, NULL, Up(c), 0)
    requires !c.Top? ==> c.p in h && h' == Hang(h[node := h'[node]], c, node)
    requires c.Top? ==> h' == h[node := h'[node]]
    ensures RepCtx(h', c, node, 0, HangRoot(c, node, root)) && Apart(c, Node(Leaf, node, Leaf))
    ensures Outside(h, h', CtxNodes(c) + {node})
  {
    hide Height, Balanced;
    CtxInHeap(h, c, NULL, 0, root);
    HangFrame(h, h', c, NULL, node, 0, root);
    LeafApart(c, node);
  }

  lemma LeafApart(c: Ctx, node: Ptr)
    requires CtxDistinct(c) && node != NULL && node !in CtxNodes(c)
    ensures Apart(c, Node(Leaf, node, Leaf))
  {
    assert Nodes(Node(Leaf, node, Leaf)) == {node};
  }

  /** A node of the tree never has itself for a parent. */
  lemma MemberHasParent(h: Heap, t: Tree, x: Ptr, root: Ptr)
    requires Whole(h, t, root)
    ensures x in Nodes(t) ==> x in h && h[x].parent != x
  {
    if x in Nodes(t) {
      WholeIsFocused(h, t, root);
      var c, f := Locate(h, Top, t, x, root);
      hide Height, Balanced;
      FocusFacts(h, c, f, Height(f), root);
    }
  }

  lemma WholeElsewhere(h: Heap, t: Tree, x: Ptr, v: Cell, root: Ptr)
    requires Whole(h, t, root) && x !in Nodes(t)
    ensures Whole(h[x := v], t, root)
  {
    RepInHeap(h, t, NULL);
    RepFrame(h, h[x := v], t, NULL);
  }
}
