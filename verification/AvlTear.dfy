/** Tearing a tree down leaf by leaf. The cached heights and the balance are given up, so only
    the links are followed here. */
module AvlTear {
  import opened AvlShape
  import opened AvlTurn

  predicate Wired(h: Heap, t: Tree, up: Ptr) {
    t.Node? ==> Links(h, t.p, Root(t.l), Root(t.r), up) && Wired(h, t.l, t.p) && Wired(h, t.r, t.p)
  }

  predicate WiredCtx(h: Heap, c: Ctx, child: Ptr, root: Ptr) {
    match c
    case Top => root == child
    case InL(up, p, r) => Links(h, p, child, Root(r), Up(up)) && Wired(h, r, p) && WiredCtx(h, up, p, root)
    case InR(up, l, p) => Links(h, p, Root(l), child, Up(up)) && Wired(h, l, p) && WiredCtx(h, up, p, root)
  }

  ghost predicate WiredAt(h: Heap, c: Ctx, t: Tree, root: Ptr) {
    Wired(h, t, Up(c)) && WiredCtx(h, c, Root(t), root) && Apart(c, t)
  }

  lemma {:induction false} RepIsWired(h: Heap, t: Tree, up: Ptr)
    requires Rep(h, t, up)
    ensures Wired(h, t, up)
    decreases t
  {
    if t.Node? { RepIsWired(h, t.l, t.p); RepIsWired(h, t.r, t.p); }
  }

  lemma {:induction false} WiredFrame(h: Heap, h': Heap, t: Tree, up: Ptr)
    requires Wired(h, t, up) && forall x :: x in Nodes(t) ==> x in h ==> x in h' && h'[x] == h[x]
    ensures Wired(h', t, up)
    decreases t
  {
    if t.Node? { WiredFrame(h, h', t.l, t.p); WiredFrame(h, h', t.r, t.p); }
  }

  lemma {:induction false} WiredCtxFrame(h: Heap, h': Heap, c: Ctx, child: Ptr, root: Ptr)
    requires WiredCtx(h, c, child, root) && forall x :: x in CtxNodes(c) ==> x in h ==> x in h' && h'[x] == h[x]
    ensures WiredCtx(h', c, child, root)
    decreases c
  {
    hide Wired;
    match c
    case Top =>
    case InL(up, p, r) => WiredFrame(h, h', r, p); WiredCtxFrame(h, h', up, p, root);
    case InR(up, l, p) => WiredFrame(h, h', l, p); WiredCtxFrame(h, h', up, p, root);
  }

  lemma WireDown(h: Heap, c: Ctx, t: Tree, root: Ptr)
    requires t.Node? && WiredAt(h, c, t, root)
    ensures WiredAt(h, InL(c, t.p, t.r), t.l, root) && WiredAt(h, InR(c, t.l, t.p), t.r, root)
    ensures Links(h, t.p, Root(t.l), Root(t.r), Up(c)) && t.p != NULL && t.p in Nodes(t)
    ensures t.l.Node? <==> Root(t.l) != NULL
    ensures t.r.Node? <==> Root(t.r) != NULL
    ensures c.Top? <==> Up(c) == NULL
  {
    assert Distinct(t.l) && Distinct(t.r);
  }

  lemma {:induction false} WireUp(h: Heap, c: Ctx, t: Tree, root: Ptr)
    requires WiredAt(h, c, t, root)
    ensures WiredAt(h, Top, Plug(c, t), root)
    decreases c
  {
    DistinctPlug(c, t);
    NodesPlug(c, t);
    match c
    case Top =>
    case InL(up, p, r) => WireUp(h, up, Node(t, p, r), root);
    case InR(up, l, p) => WireUp(h, up, Node(l, p, t), root);
  }

  lemma {:induction false} WireLocate(h: Heap, c: Ctx, t: Tree, x: Ptr, root: Ptr) returns (c': Ctx, t': Tree)
    requires WiredAt(h, c, t, root) && x in Nodes(t)
    ensures Plug(c', t') == Plug(c, t) && t'.Node? && t'.p == x && WiredAt(h, c', t', root)
    decreases t
  {
    hide WiredAt;
    if t.p == x {
      c', t' := c, t;
    } else {
      WireDown(h, c, t, root);
      if x in Nodes(t.l) {
        c', t' := WireLocate(h, InL(c, t.p, t.r), t.l, x, root);
      } else {
        c', t' := WireLocate(h, InR(c, t.l, t.p), t.r, x, root);
      }
    }
  }

  /** Which link of the parent leads to the subtree. */
  lemma WireSide(h: Heap, c: Ctx, t: Tree, root: Ptr)
    requires WiredAt(h, c, t, root) && !c.Top? && t.Node?
    ensures c.p in h && c.p != t.p && c.p != NULL && (h[c.p].left == t.p <==> c.InL?)
    ensures c.p in CtxNodes(c)
  {
    if c.InR? && c.l.Node? { assert c.l.p in CtxNodes(c) && t.p in Nodes(t); }
  }

  /** Memory once the leaf `x` was let go. */
  lemma LeafGone(h: Heap, h': Heap, c: Ctx, x: Ptr, root: Ptr)
    requires WiredAt(h, c, Node(Leaf, x, Leaf), root)
    requires if c.Top? then h' == h else c.p in h && x in h && h' == Hang(h, c, NULL)[x := h[x].(height := 0)]
    ensures WiredAt(h', c, Leaf, HangRoot(c, NULL, root)) && x !in CtxNodes(c) && x != NULL
    ensures Nodes(Plug(c, Leaf)) == CtxNodes(c) && Nodes(Plug(c, Node(Leaf, x, Leaf))) == CtxNodes(c) + {x}
  {
    NodesPlug(c, Leaf);
    NodesPlug(c, Node(Leaf, x, Leaf));
    assert Nodes(Node(Leaf, x, Leaf)) == {x};
    if !c.Top? {
      var s := Sibling(c);
      WiredFrame(h, h', s, c.p);
      WiredCtxFrame(h, h', c.up, c.p, root);
    }
  }

  lemma WireRoot(h: Heap, t: Tree, root: Ptr)
    requires WiredAt(h, Top, t, root)
    ensures (root == NULL <==> t.Leaf?) && (t.Node? ==> root == t.p) && (t.Leaf? ==> Nodes(t) == {})
    ensures NULL !in Nodes(t)
  {
    NoNull(t);
  }

  lemma WholeIsWired(h: Heap, t: Tree, root: Ptr)
    requires Whole(h, t, root)
    ensures WiredAt(h, Top, t, root)
  {
    RepIsWired(h, t, NULL);
  }

  lemma WiredElsewhere(h: Heap, t: Tree, x: Ptr, v: Cell, root: Ptr)
    requires WiredAt(h, Top, t, root) && x !in Nodes(t)
    ensures WiredAt(h[x := v], Top, t, root)
  {
    WiredFrame(h, h[x := v], t, NULL);
  }
}
