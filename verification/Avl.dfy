/** The intrusive AVL tree of src/xlib/avlmini.c. */
module Avl {
  import opened AvlShape
  import opened AvlTurn
  import opened AvlErase
  import opened AvlOrder
  import opened AvlTear

  /** The pointer cell `struct avl_node **link` refers to. */
  datatype Link = AtRoot | AtLeft(p: Ptr) | AtRight(p: Ptr)

  function LinkOf(c: Ctx): Link {
    match c
    case Top => AtRoot
    case InL(_, p, _) => AtLeft(p)
    case InR(_, _, p) => AtRight(p)
  }

  /** Following the probe's answers from `x` past the nodes `v` leads to `n`. */
  ghost predicate Trail(h: Heap, x: Ptr, probe: Ptr -> int, v: seq<Ptr>, n: Ptr)
    decreases |v|
  {
    if v == [] then n == x
    else
      var l := v[|v| - 1];
      && l != NULL && l in h && probe(l) != 0 && n == (if probe(l) < 0 then h[l].left else h[l].right)
      && Trail(h, x, probe, v[..|v| - 1], l)
  }

  class Avl {
    var heap: Heap
    var root: Ptr

    method ChildReplace(gone: Ptr, fresh_: Ptr, parent: Ptr)
      requires InHeap(heap, parent)
      modifies `heap, `root
      ensures Local(old(heap), heap, {}, parent, gone, fresh_)
      ensures root == if parent == NULL then fresh_ else old(root)
    {
      if parent != NULL {
        if heap[parent].left == gone {
          heap := heap[parent := heap[parent].(left := fresh_)];
        } else {
          heap := heap[parent := heap[parent].(right := fresh_)];
        }
      } else {
        root := fresh_;
      }
    }

    method RotateLeft(node: Ptr, ghost b: Ptr, ghost up: Ptr) returns (right: Ptr)
      requires node in heap && up == heap[node].parent && InHeap(heap, up)
      requires heap[node].right in heap && b == heap[heap[node].right].left && InHeap(heap, b)
      requires node != heap[node].right && b != node && b != heap[node].right && NULL !in {node, heap[node].right}
      requires up != NULL ==> up !in {node, heap[node].right, b}
      modifies `heap, `root
      ensures right == old(heap[node].right)
      ensures RotatedLeft(old(heap), heap, node, right, b, up)
      ensures root == if up == NULL then right else old(root)
    {
      right := heap[node].right;
      var parent := heap[node].parent;
      heap := heap[node := heap[node].(right := heap[right].left)];
      if heap[right].left != NULL {
        var inner := heap[right].left;
        heap := heap[inner := heap[inner].(parent := node)];
      }
      heap := heap[right := heap[right].(left := node)];
      heap := heap[right := heap[right].(parent := parent)];
      ChildReplace(node, right, parent);
      heap := heap[node := heap[node].(parent := right)];
    }

    method RotateRight(node: Ptr, ghost b: Ptr, ghost up: Ptr) returns (left: Ptr)
      requires node in heap && up == heap[node].parent && InHeap(heap, up)
      requires heap[node].left in heap && b == heap[heap[node].left].right && InHeap(heap, b)
      requires node != heap[node].left && b != node && b != heap[node].left && NULL !in {node, heap[node].left}
      requires up != NULL ==> up !in {node, heap[node].left, b}
      modifies `heap, `root
      ensures left == old(heap[node].left)
      ensures RotatedRight(old(heap), heap, node, left, b, up)
      ensures root == if up == NULL then left else old(root)
    {
      left := heap[node].left;
      var parent := heap[node].parent;
      heap := heap[node := heap[node].(left := heap[left].right)];
      if heap[left].right != NULL {
        var inner := heap[left].right;
        heap := heap[inner := heap[inner].(parent := node)];
      }
      heap := heap[left := heap[left].(right := node)];
      heap := heap[left := heap[left].(parent := parent)];
      ChildReplace(node, left, parent);
      heap := heap[node := heap[node].(parent := left)];
    }

    method HeightUpdate(node: Ptr)
      requires Updatable(heap, node)
      modifies `heap
      ensures heap == Updated(old(heap), node)
    {
      var h0 := HeightAt(heap, heap[node].left);
      var h1 := HeightAt(heap, heap[node].right);
      heap := heap[node := heap[node].(height := Max(h0, h1) + 1)];
    }

    /** A rotation followed by the updates of the two heights it spoils. */
    method SpinLeft(node: Ptr, ghost a: Tree, ghost s: Tree, ghost up: Ptr) returns (res: Ptr)
      requires s.Node? && Turnable(heap, a, node, s, up)
      modifies `heap, `root
      ensures res == s.p && Rep(heap, Node(Node(a, node, s.l), s.p, s.r), up)
      ensures Local(old(heap), heap, Nodes(Node(a, node, s)), up, node, s.p)
      ensures root == if up == NULL then res else old(root)
    {
      hide Turnable, Rep, Nodes, Local, RotatedLeft, Updatable, Updated;
      ghost var h := heap;
      SpinLeftStart(h, a, node, s, up);
      res := RotateLeft(node, Root(s.l), up);
      SpinLeftDone(h, heap, a, node, s, up);
      HeightUpdate(heap[res].left);
      HeightUpdate(res);
    }
  
    method SpinRight(node: Ptr, ghost s: Tree, ghost d: Tree, ghost up: Ptr) returns (res: Ptr)
      requires s.Node? && Turnable(heap, s, node, d, up)
      modifies `heap, `root
      ensures res == s.p && Rep(heap, Node(s.l, s.p, Node(s.r, node, d)), up)
      ensures Local(old(heap), heap, Nodes(Node(s, node, d)), up, node, s.p)
      ensures root == if up == NULL then res else old(root)
    {
      hide Turnable, Rep, Nodes, Local, RotatedRight, Updatable, Updated;
      ghost var h := heap;
      SpinRightStart(h, s, node, d, up);
      res := RotateRight(node, Root(s.r), up);
      SpinRightDone(h, heap, s, node, d, up);
      HeightUpdate(heap[res].right);
      HeightUpdate(res);
    }
  
    /** _avl_node_fix_l */
    method FixLeft(node: Ptr, ghost c: Ctx, ghost a: Tree, ghost s: Tree, ghost k: int) returns (res: Ptr)
      requires Tipped(heap, c, a, node, s, k, root) && Height(s) == Height(a) + 2
      modifies `heap, `root
      ensures s.Node? && (Height(s.l) > Height(s.r) ==> s.l.Node?)
      ensures res == FixL(a, node, s).p && Focused(heap, c, FixL(a, node, s), k, root)
      ensures Outside(old(heap), heap, CtxNodes(c) + Nodes(Node(a, node, s)))
    {
      hide Turnable, Rep, RepCtx, Balanced, Distinct, CtxNodes, Nodes, CtxDistinct, Focused, Outside, Local;
      ghost var h, root0 := heap, root;
      TippedTurns(h, c, a, node, s, k, root);
      FixLBalances(a, node, s);
      FixLOrder(a, node, s);
      SpinLeftStart(h, a, node, s, Up(c));
      var right := heap[node].right;
      ChildTurns(h, a, node, s, Up(c));
      var rh0, rh1 := HeightAt(heap, heap[right].left), HeightAt(heap, heap[right].right);
      if rh0 > rh1 {
        TurnOrder(s.l.l, s.l.p, s.l.r, s.p, s.r);
        right := SpinRight(right, s.l, s.r, node);
        ghost var s' := Node(s.l.l, s.l.p, Node(s.l.r, s.p, s.r));
        InnerLeft(h, heap, a, node, s, s', Up(c));
        ghost var h1 := heap;
        res := SpinLeft(node, a, s', Up(c));
        LocalTwice(h, h1, heap, a, node, s, Up(c), s.p, s'.p, s'.p);
      } else {
        res := SpinLeft(node, a, s, Up(c));
      }
      Turned(h, heap, c, a, node, s, FixL(a, node, s), k, root0);
    }
  
    /** _avl_node_fix_r */
    method FixRight(node: Ptr, ghost c: Ctx, ghost s: Tree, ghost d: Tree, ghost k: int) returns (res: Ptr)
      requires Tipped(heap, c, s, node, d, k, root) && Height(s) == Height(d) + 2
      modifies `heap, `root
      ensures s.Node? && (Height(s.l) < Height(s.r) ==> s.r.Node?)
      ensures res == FixR(s, node, d).p && Focused(heap, c, FixR(s, node, d), k, root)
      ensures Outside(old(heap), heap, CtxNodes(c) + Nodes(Node(s, node, d)))
    {
      hide Turnable, Rep, RepCtx, Balanced, Distinct, CtxNodes, Nodes, CtxDistinct, Focused, Outside, Local;
      ghost var h, root0 := heap, root;
      TippedTurns(h, c, s, node, d, k, root);
      FixRBalances(s, node, d);
      FixROrder(s, node, d);
      SpinRightStart(h, s, node, d, Up(c));
      var left := heap[node].left;
      ChildTurns(h, s, node, d, Up(c));
      var rh0, rh1 := HeightAt(heap, heap[left].left), HeightAt(heap, heap[left].right);
      if rh0 < rh1 {
        TurnOrder(s.l, s.p, s.r.l, s.r.p, s.r.r);
        left := SpinLeft(left, s.l, s.r, node);
        ghost var s' := Node(Node(s.l, s.p, s.r.l), s.r.p, s.r.r);
        InnerRight(h, heap, s, s', node, d, Up(c));
        ghost var h1 := heap;
        res := SpinRight(node, s', d, Up(c));
        LocalTwiceRight(h, h1, heap, s, node, d, Up(c), s.p, s'.p, s'.p);
      } else {
        res := SpinRight(node, s, d, Up(c));
      }
      Turned(h, heap, c, s, node, d, FixR(s, node, d), k, root0);
    }

    /** The two repairs of a climbing loop; a node that is in balance stays. */
    method Repair(node: Ptr, diff: int, ghost c: Ctx, ghost t: Tree, ghost k: int)
      returns (res: Ptr, ghost t': Tree)
      requires !c.Top? && node == c.p && Balanced(t) && Balanced(Sibling(c))
      requires Close(Height(t), k) && Close(k, Height(Sibling(c)))
      requires Tipped(heap, c.up, LeftOf(c, t), node, RightOf(c, t), AboveHeight(c, k), root)
      requires heap[node].height == Height(Above(c, t)) && diff == Height(LeftOf(c, t)) - Height(RightOf(c, t))
      modifies `heap, `root
      ensures t'.Node? && res == t'.p && res in heap && heap[res].parent == Up(c.up)
      ensures Focused(heap, c.up, t', AboveHeight(c, k), root)
      ensures Inorder(t') == Inorder(Above(c, t)) && Nodes(t') == Nodes(Above(c, t))
      ensures Close(Height(t'), AboveHeight(c, k)) && (Height(t) >= k ==> Height(t') >= AboveHeight(c, k))
      ensures Outside(old(heap), heap, CtxNodes(c.up) + Nodes(Above(c, t)))
    {
      hide Tipped, Focused, Height, Balanced, Nodes, CtxNodes, Inorder, FixL, FixR, Distinct;
      ghost var a, s, k' := LeftOf(c, t), RightOf(c, t), AboveHeight(c, k);
      ClimbHeights(c, t, k);
      if diff <= -2 {
        res := FixLeft(node, c.up, a, s, k');
        t' := FixL(a, node, s);
        FixLOrder(a, node, s);
      } else if diff >= 2 {
        res := FixRight(node, c.up, a, s, k');
        t' := FixR(a, node, s);
        FixROrder(a, node, s);
      } else {
        Settled(heap, c.up, a, node, s, k', root);
        res, t' := node, Above(c, t);
        OutsideSelf(heap, CtxNodes(c.up) + Nodes(t'));
      }
      FocusFacts(heap, c.up, t', k', root);
    }

    /** _avl_node_rebalance, from the parent of a subtree whose height is one off at most. */
    method Rebalance(start: Ptr, ghost c0: Ctx, ghost t0: Tree, ghost k0: int) returns (ghost t: Tree)
      requires start == Up(c0) && Focused(heap, c0, t0, k0, root) && Close(Height(t0), k0)
      modifies `heap, `root
      ensures Whole(heap, t, root)
      ensures Inorder(t) == Before(c0) + Inorder(t0) + After(c0) && Nodes(t) == CtxNodes(c0) + Nodes(t0)
      ensures Outside(old(heap), heap, CtxNodes(c0) + Nodes(t0))
    {
      hide Tipped, Height, Balanced, Nodes, CtxNodes, Inorder, Before, After, Distinct, CtxDistinct, Outside, Rep,
          RepCtx, Focused, Whole;
      var node := start;
      ghost var c, k, order, nodes := c0, k0, Before(c0) + Inorder(t0) + After(c0), CtxNodes(c0) + Nodes(t0);
      t := t0;
      OutsideSelf(heap, nodes);
      while node != NULL
        invariant node == Up(c) && Focused(heap, c, t, k, root) && Close(Height(t), k)
        invariant Before(c) + Inorder(t) + After(c) == order && CtxNodes(c) + Nodes(t) == nodes
        invariant Outside(old(heap), heap, nodes)
        decreases c
      {
        FocusFacts(heap, c, t, k, root);
        StepUp(heap, c, t, k, root);
        Regrouped(c, t);
        ghost var k' := AboveHeight(c, k);
        var h0 := HeightAt(heap, heap[node].left);
        var h1 := HeightAt(heap, heap[node].right);
        var diff := h0 - h1;
        var height := Max(h0, h1) + 1;
        if heap[node].height != height {
          Remark(heap, c.up, LeftOf(c, t), node, RightOf(c, t), k', root, height);
          OutsideOne(old(heap), heap, node, heap[node].(height := height), nodes);
          heap := heap[node := heap[node].(height := height)];
        } else if diff >= -1 && diff <= 1 {
          Settled(heap, c.up, LeftOf(c, t), node, RightOf(c, t), k', root);
          c, t, k := c.up, Above(c, t), k';
          break;
        }
        ghost var h := heap;
        node, t := Repair(node, diff, c, t, k);
        OutsideTwice(old(heap), h, heap, nodes);
        c, k := c.up, k';
        node := heap[node].parent;
      }
      if node == NULL { AtTop(heap, c, t, k, root); }
      Finished(heap, c, t, root);
      t := Plug(c, t);
    }
  
    /** avl_node_post_insert, for a leaf that was just hung into the tree. */
    method PostInsert(leaf: Ptr, ghost c0: Ctx) returns (ghost t: Tree)
      requires Links(heap, leaf, NULL, NULL, Up(c0)) && RepCtx(heap, c0, leaf, 0, root)
      requires Apart(c0, Node(Leaf, leaf, Leaf))
      modifies `heap, `root
      ensures Whole(heap, t, root)
      ensures Inorder(t) == Before(c0) + [leaf] + After(c0) && Nodes(t) == CtxNodes(c0) + {leaf}
      ensures Outside(old(heap), heap, CtxNodes(c0) + {leaf})
    {
      hide Tipped, Height, Balanced, Nodes, CtxNodes, Inorder, Before, After, Distinct, CtxDistinct, Outside, Rep,
          RepCtx, Focused, Whole;
      ghost var c, k, order, nodes := c0, 0, Before(c0) + [leaf] + After(c0), CtxNodes(c0) + {leaf};
      t := Node(Leaf, leaf, Leaf);
      LeafFocus(heap, c0, leaf, root);
      OutsideSelf(heap, nodes);
      OutsideOne(heap, heap, leaf, heap[leaf].(height := 1), nodes);
      heap := heap[leaf := heap[leaf].(height := 1)];
      var node := heap[leaf].parent;
      while node != NULL
        invariant node == Up(c) && Focused(heap, c, t, k, root) && k <= Height(t) <= k + 1
        invariant Before(c) + Inorder(t) + After(c) == order && CtxNodes(c) + Nodes(t) == nodes
        invariant Outside(old(heap), heap, nodes)
        decreases c
      {
        FocusFacts(heap, c, t, k, root);
        StepUp(heap, c, t, k, root);
        Regrouped(c, t);
        ghost var k' := AboveHeight(c, k);
        var h0 := HeightAt(heap, heap[node].left);
        var h1 := HeightAt(heap, heap[node].right);
        var height := Max(h0, h1) + 1;
        var diff := h0 - h1;
        if heap[node].height == height {
          ClimbHeights(c, t, k);
          Settled(heap, c.up, LeftOf(c, t), node, RightOf(c, t), k', root);
          c, t, k := c.up, Above(c, t), k';
          break;
        }
        Remark(heap, c.up, LeftOf(c, t), node, RightOf(c, t), k', root, height);
        OutsideOne(old(heap), heap, node, heap[node].(height := height), nodes);
        heap := heap[node := heap[node].(height := height)];
        ghost var h := heap;
        node, t := Repair(node, diff, c, t, k);
        OutsideTwice(old(heap), h, heap, nodes);
        c, k := c.up, k';
        node := heap[node].parent;
      }
      if node == NULL { AtTop(heap, c, t, k, root); }
      Finished(heap, c, t, root);
      t := Plug(c, t);
    }
  
    /** avl_node_erase, the branch for a node with at most one child. */
    method CutOut(node: Ptr, ghost c: Ctx, ghost t: Tree) returns (parent: Ptr)
      requires t.Node? && node == t.p && (t.l.Leaf? || t.r.Leaf?) && Focused(heap, c, t, Height(t), root)
      modifies `heap, `root
      ensures parent == Up(c) && Focused(heap, c, OnlyChild(t), Height(t), root)
      ensures Outside(old(heap), heap, CtxNodes(c) + Nodes(OnlyChild(t)))
    {
      hide Rep, RepCtx, Distinct, CtxDistinct, Nodes, CtxNodes, Height, Balanced, Focused, Outside;
      ghost var h, root0 := heap, root;
      StepDown(heap, c, t, root);
      CutStart(heap, c, t, root);
      var child := if heap[node].left == NULL then heap[node].right else heap[node].left;
      parent := heap[node].parent;
      ChildReplace(node, child, parent);
      if child != NULL {
        heap := heap[child := heap[child].(parent := parent)];
      }
      CutDone(h, heap, c, t, root0);
    }

    /** The way to the successor of a node with two children: right once, then left. */
    method Successor(victim: Ptr, ghost c: Ctx, ghost t: Tree) returns (node: Ptr, ghost c': Ctx, ghost t': Tree)
      requires t.Node? && victim == t.p && t.r.Node? && Focused(heap, c, t, Height(t), root)
      ensures Focused(heap, c', t', Height(t'), root) && t'.Node? && node == t'.p && t'.l.Leaf?
      ensures Below(c', InR(c, t.l, victim)) && Plug(c', t') == Plug(c, t)
    {
      hide Rep, RepCtx, Distinct, CtxDistinct, Nodes, CtxNodes, Height, Balanced, Focused, Outside, Before, After,
          Inorder;
      StepDown(heap, c, t, root);
      node := heap[victim].right;
      c', t' := InR(c, t.l, victim), t.r;
      StepDown(heap, c', t', root);
      while heap[node].left != NULL
        invariant t'.Node? && node == t'.p && Below(c', InR(c, t.l, victim)) && Plug(c', t') == Plug(c, t)
        invariant Focused(heap, c', t', Height(t'), root)
        invariant node in heap && heap[node].left == Root(t'.l) && (t'.l.Node? <==> Root(t'.l) != NULL)
        decreases t'
      {
        StepDown(heap, c', t', root);
        c', t' := InL(c', t'.p, t'.r), t'.l;
        node := heap[node].left;
        StepDown(heap, c', t', root);
      }
    }

    /** The writes that put `node` in the place of `victim`. */
    method TakeOver(victim: Ptr, node: Ptr, ghost left: Ptr, ghost right: Ptr, ghost up: Ptr)
      requires victim in heap && node in heap && Links(heap, victim, left, right, up)
      requires left in heap && InHeap(heap, right) && InHeap(heap, up) && NULL !in {left, node, victim}
      requires node !in {victim, left, right, up} && victim !in {left, right, up} && left !in {right, up}
      requires right != NULL ==> right != up
      modifies `heap, `root
      ensures Local(old(heap), heap, {node, left, right}, up, victim, node)
      ensures heap[node] == old(heap[victim]) && heap[left] == old(heap[left]).(parent := node)
      ensures right != NULL ==> heap[right] == old(heap[right]).(parent := node)
      ensures root == if up == NULL then node else old(root)
    {
      ghost var h := heap;
      heap := heap[node := heap[node].(left := heap[victim].left)];
      heap := heap[node := heap[node].(right := heap[victim].right)];
      heap := heap[node := heap[node].(parent := heap[victim].parent)];
      heap := heap[node := heap[node].(height := heap[victim].height)];
      assert heap == h[node := h[victim]];
      ChildReplace(victim, node, heap[victim].parent);
      heap := heap[heap[victim].left := heap[heap[victim].left].(parent := node)];
      if heap[victim].right != NULL {
        heap := heap[heap[victim].right := heap[heap[victim].right].(parent := node)];
      }
    }

    /** The successor, already cut out, takes the place of the victim. */
    method Install(victim: Ptr, node: Ptr, ghost c: Ctx, ghost base: Ctx, ghost s: Tree, ghost k: int)
      requires Below(c, base) && base.InR? && base.l.Node? && victim == base.p && Focused(heap, c, s, k, root)
      requires node != NULL && node in heap && node !in CtxNodes(c) && node !in Nodes(s)
      modifies `heap, `root
      ensures Focused(heap, Renamed(c, base, node), s, k, root)
      ensures Up(Renamed(c, base, node)) == if Up(c) == base.p then node else Up(c)
      ensures Outside(old(heap), heap, CtxNodes(c) + Nodes(s) + {node})
    {
      hide Rep, RepCtx, Distinct, CtxDistinct, Nodes, CtxNodes, Height, Balanced, Focused, Outside, Below, Renamed;
      ghost var h, root0 := heap, root;
      InstalledStart(heap, c, base, node, s, k, root);
      TakeOver(victim, node, Root(base.l), heap[victim].right, Up(base.up));
      InstalledDone(h, heap, c, base, node, s, k, root0);
    }

    /** avl_node_erase, the branch for a node with two children. */
    method Succeed(victim: Ptr, ghost c: Ctx, ghost t: Tree)
      returns (parent: Ptr, ghost c': Ctx, ghost t': Tree, ghost k: int)
      requires t.Node? && victim == t.p && t.l.Node? && t.r.Node? && Focused(heap, c, t, Height(t), root)
      modifies `heap, `root
      ensures parent == Up(c') && Focused(heap, c', t', k, root) && k == Height(t') + 1
      ensures Before(c') + Inorder(t') + After(c') == Before(c) + Inorder(t.l) + (Inorder(t.r) + After(c))
      ensures CtxNodes(c') + Nodes(t') == CtxNodes(c) + Nodes(t) - {victim}
      ensures Outside(old(heap), heap, CtxNodes(c) + Nodes(t))
    {
      hide Rep, RepCtx, Distinct, CtxDistinct, Nodes, CtxNodes, Height, Balanced, Focused, Outside, Before, After,
          Inorder, Below, Renamed;
      ghost var base := InR(c, t.l, victim);
      ghost var h, root0 := heap, root;
      var node;
      ghost var cm, tm;
      node, cm, tm := Successor(victim, c, t);
      k, t' := Height(tm), tm.r;
      c' := Renamed(cm, base, node);
      StepDown(heap, cm, tm, root);
      CutStart(heap, cm, tm, root);
      SuccessorParts(h, c, t, cm, tm, root);
      var child := heap[node].right;
      parent := heap[node].parent;
      if child != NULL {
        heap := heap[child := heap[child].(parent := parent)];
      }
      ChildReplace(node, child, parent);
      CutDone(h, heap, cm, tm, root0);
      ghost var h1 := heap;
      if heap[node].parent == victim {
        parent := node;
      }
      Install(victim, node, cm, base, tm.r, k);
      OutsideBoth(h, h1, heap, CtxNodes(cm) + Nodes(tm.r), node, CtxNodes(c) + Nodes(t));
    }
  
    /** avl_node_erase */
    method Erase(victim: Ptr, ghost whole: Tree) returns (ghost t: Tree, ghost i: nat)
      requires Whole(heap, whole, root) && victim in Nodes(whole)
      modifies `heap, `root
      ensures Whole(heap, t, root) && Nodes(t) == Nodes(whole) - {victim}
      ensures i < |Inorder(whole)| && Inorder(whole)[i] == victim
      ensures Inorder(t) == Inorder(whole)[..i] + Inorder(whole)[i + 1..]
      ensures victim in old(heap) && Outside(old(heap), heap, Nodes(whole))
    {
      hide Rep, RepCtx, Distinct, CtxDistinct, Nodes, CtxNodes, Height, Balanced, Focused, Outside, Before, After,
          Inorder, Whole;
      WholeIsFocused(heap, whole, root);
      ghost var c, f := Locate(heap, Top, whole, victim, root);
      ghost var h := heap;
      StepDown(heap, c, f, root);
      FocusOrder(c, f);
      NodesPlug(c, f);
      i := |Before(c)| + |Inorder(f.l)|;
      var parent;
      ghost var c', k := c, Height(f);
      if heap[victim].left != NULL && heap[victim].right != NULL {
        parent, c', t, k := Succeed(victim, c, f);
      } else {
        CutParts(heap, c, f, root);
        parent := CutOut(victim, c, f);
        t := OnlyChild(f);
        OutsideWiden(h, heap, CtxNodes(c) + Nodes(t), Nodes(whole));
      }
      ghost var h1, s := heap, t;
      if parent != NULL {
        t := Rebalance(parent, c', t, k);
      } else {
        AtTop(heap, c', t, k, root);
        Finished(heap, c', t, root);
        OutsideSelf(heap, CtxNodes(c') + Nodes(s));
        t := Plug(c', t);
      }
      OutsideGrow(h, h1, heap, CtxNodes(c') + Nodes(s), Nodes(whole));
    }

    /** The tree the memory holds, its order and its size. */
    var compare: (Ptr, Ptr) -> int
    var count: int
    ghost var tree: Tree

    ghost predicate Valid()
      reads this
    {
      && Whole(heap, tree, root) && TotalOrder(compare) && Sorted(compare, Inorder(tree))
      && count == |Inorder(tree)|
    }

    /** avl_tree_init */
    constructor (compare: (Ptr, Ptr) -> int, memory: Heap)
      requires TotalOrder(compare)
      ensures Valid() && Inorder(tree) == [] && this.compare == compare && heap == memory
    {
      this.compare := compare;
      heap, root, count, tree := memory, NULL, 0, Leaf;
    }

    /** avl_tree_find: finds the node the probe accepts, if there is one, and looks at no more nodes
        than the tree is high: those on the way from the root that the probe's answers point. */
    method Find(probe: Ptr -> int) returns (found: Ptr, ghost looked: seq<Ptr>)
      requires Valid() && Separates(probe, Inorder(tree))
      ensures found != NULL ==> found in Inorder(tree) && probe(found) == 0
      ensures found == NULL ==> forall x :: x in Inorder(tree) ==> probe(x) != 0
      ensures if found == NULL then Trail(heap, root, probe, looked, NULL)
        else |looked| > 0 && looked[|looked| - 1] == found && Trail(heap, root, probe, looked[..|looked| - 1], found)
      ensures |looked| <= Height(tree) && Fib(Height(tree) + 2) - 1 <= count
    {
      hide Rep, RepCtx, Distinct, CtxDistinct, Nodes, CtxNodes, Balanced, Focused, Outside, Before, After, Inorder;
      WholeIsFocused(heap, tree, root);
      SizeBound(tree);
      var n := root;
      ghost var c, t := Top, tree;
      looked := [];
      StartBetween(probe);
      while n != NULL
        invariant Focused(heap, c, t, Height(t), root) && Plug(c, t) == tree && n == Root(t)
            && (t.Node? <==> n != NULL)
        invariant Between(probe, c) && |looked| + Height(t) <= Height(tree)
        invariant Trail(heap, root, probe, looked, n)
        decreases t
      {
        StepDown(heap, c, t, root);
        Steer(probe, c, t);
        ghost var before := looked;
        looked := looked + [n];
        assert looked[..|looked| - 1] == before;
        var hr := probe(n);
        if hr == 0 {
          FocusOrder(c, t);
          return n, looked;
        } else if hr < 0 {
          n := heap[n].left;
          c, t := InL(c, t.p, t.r), t.l;
        } else {
          n := heap[n].right;
          c, t := InR(c, t.l, t.p), t.r;
        }
      }
      found := NULL;
      NotBetween(probe, c);
    }
  
    /** link[0] */
    function Deref(link: Link): Ptr
      reads this
      requires !link.AtRoot? ==> link.p in heap
    {
      match link
      case AtRoot => root
      case AtLeft(p) => heap[p].left
      case AtRight(p) => heap[p].right
    }

    /** link[0] = node, for a node whose fields were just initialised */
    method Attach(link: Link, node: Ptr, parent: Ptr, ghost c: Ctx)
      requires Focused(heap, c, Leaf, 0, root) && link == LinkOf(c) && parent == Up(c)
      requires node in heap && node != NULL && node !in CtxNodes(c)
      modifies `heap, `root
      ensures Links(heap, node, NULL, NULL, Up(c)) && RepCtx(heap, c, node, 0, root)
      ensures Apart(c, Node(Leaf, node, Leaf))
      ensures Outside(old(heap), heap, CtxNodes(c) + {node})
    {
      hide Rep, RepCtx, Distinct, CtxDistinct, Nodes, CtxNodes, Height, Balanced, Focused, Outside;
      ghost var h, root0 := heap, root;
      AttachStart(heap, c, node, root);
      heap := heap[node := heap[node].(parent := parent)];
      heap := heap[node := heap[node].(height := 0)];
      heap := heap[node := heap[node].(left := NULL, right := NULL)];
      assert heap == h[node := Cell(NULL, NULL, parent, 0)];
      match link {
        case AtRoot => root := node;
        case AtLeft(p) => heap := heap[p := heap[p].(left := node)];
        case AtRight(p) => heap := heap[p := heap[p].(right := node)];
      }
      AttachDone(h, heap, c, node, root0);
    }

    /** avl_tree_add: refuses a node whose key is taken and tells the holder; else the node
        enters at the one place the order leaves for it. */
    method Add(node: Ptr) returns (conflict: Ptr, ghost i: nat)
      requires Valid() && node != NULL && node in heap
      modifies `heap, `root, `count, `tree
      ensures Valid() && Outside(old(heap), heap, Nodes(tree))
      ensures conflict == NULL <==> forall x :: x in old(Inorder(tree)) ==> compare(node, x) != 0
      ensures conflict != NULL ==> conflict in old(Inorder(tree)) && compare(node, conflict) == 0
      ensures conflict != NULL ==> tree == old(tree) && heap == old(heap) && count == old(count)
      ensures conflict == NULL ==>
        && i <= old(|Inorder(tree)|) && count == old(count) + 1
        && Inorder(tree) == old(Inorder(tree))[..i] + [node] + old(Inorder(tree))[i..]
    {
      hide Rep, RepCtx, Distinct, CtxDistinct, Nodes, CtxNodes, Height, Balanced, Focused, Outside, Before, After,
          Inorder, TotalOrder, Sorted;
      var cmp := compare;
      ghost var probe := y => cmp(node, y);
      OrderSeparates(cmp, node, Inorder(tree));
      StartBetween(probe);
      WholeIsFocused(heap, tree, root);
      OutsideSelf(heap, Nodes(tree));
      i := 0;
      var link, parent := AtRoot, NULL;
      ghost var c, t := Top, tree;
      while Deref(link) != NULL
        invariant heap == old(heap) && root == old(root) && tree == old(tree) && count == old(count)
        invariant Focused(heap, c, t, Height(t), root) && Plug(c, t) == tree
        invariant link == LinkOf(c) && parent == Up(c) && (!c.Top? ==> c.p in heap)
        invariant Deref(link) == Root(t) && (t.Node? <==> Root(t) != NULL)
        invariant Between(probe, c)
        decreases t
      {
        StepDown(heap, c, t, root);
        Steer(probe, c, t);
        parent := Deref(link);
        var hr := cmp(node, parent);
        if hr == 0 {
          FocusOrder(c, t);
          return parent, i;
        } else if hr < 0 {
          link := AtLeft(parent);
          c, t := InL(c, t.p, t.r), t.l;
        } else {
          link := AtRight(parent);
          c, t := InR(c, t.l, t.p), t.r;
        }
      }
      conflict := NULL;
      NotBetween(probe, c);
      Irreflexive(cmp, node);
      GapFacts(c, node);
      i := |Before(c)|;
      ghost var h := heap;
      Attach(link, node, parent, c);
      ghost var h1 := heap;
      tree := PostInsert(node, c);
      OutsideTwice(h, h1, heap, CtxNodes(c) + {node});
      count := count + 1;
      InsertSorted(cmp, Before(c), node, After(c));
    }

    /** avl_tree_remove: a node that is in no tree, which its parent link to itself tells, is
        left alone. */
    method Remove(node: Ptr) returns (ghost i: nat)
      requires Valid() && node in heap && node != NULL && (node in Nodes(tree) || heap[node].parent == node)
      modifies `heap, `root, `count, `tree
      ensures Valid() && Outside(old(heap), heap, old(Nodes(tree)))
      ensures node in heap && heap[node].parent == node
      ensures node !in old(Nodes(tree)) ==> heap == old(heap) && root == old(root) && tree == old(tree)
      ensures node in old(Nodes(tree)) ==>
        && i < old(|Inorder(tree)|) && old(Inorder(tree))[i] == node && count == old(count) - 1
        && Inorder(tree) == old(Inorder(tree))[..i] + old(Inorder(tree))[i + 1..]
        && Nodes(tree) == old(Nodes(tree)) - {node}
    {
      hide Rep, Distinct, Nodes, Height, Balanced, Inorder, Whole, TotalOrder, Sorted;
      i := 0;
      MemberHasParent(heap, tree, node, root);
      if heap[node].parent != node {
        ghost var before, h := tree, heap;
        tree, i := Erase(node, tree);
        RemoveSorted(compare, Inorder(before), i);
        WholeElsewhere(heap, tree, node, heap[node].(parent := node), root);
        heap := heap[node := heap[node].(parent := node)];
        count := count - 1;
      }
    }
  
    method Leftmost(start: Ptr, ghost c: Ctx, ghost t: Tree) returns (node: Ptr, ghost c': Ctx, ghost t': Tree)
      requires t.Node? && start == t.p && Focused(heap, c, t, Height(t), root)
      ensures Focused(heap, c', t', Height(t'), root) && Plug(c', t') == Plug(c, t)
      ensures t'.Node? && node == t'.p && t'.l.Leaf? && Before(c') == Before(c)
    {
      hide Rep, RepCtx, Distinct, CtxDistinct, Nodes, CtxNodes, Height, Balanced, Focused, Inorder;
      node := start;
      c', t' := c, t;
      StepDown(heap, c', t', root);
      while heap[node].left != NULL
        invariant t'.Node? && node == t'.p && Before(c') == Before(c) && Plug(c', t') == Plug(c, t)
        invariant Focused(heap, c', t', Height(t'), root)
        invariant node in heap && heap[node].left == Root(t'.l) && (t'.l.Node? <==> Root(t'.l) != NULL)
        decreases t'
      {
        StepDown(heap, c', t', root);
        c', t' := InL(c', t'.p, t'.r), t'.l;
        node := heap[node].left;
        StepDown(heap, c', t', root);
      }
    }

    method Rightmost(start: Ptr, ghost c: Ctx, ghost t: Tree) returns (node: Ptr, ghost c': Ctx, ghost t': Tree)
      requires t.Node? && start == t.p && Focused(heap, c, t, Height(t), root)
      ensures Focused(heap, c', t', Height(t'), root) && Plug(c', t') == Plug(c, t)
      ensures t'.Node? && node == t'.p && t'.r.Leaf? && After(c') == After(c)
    {
      hide Rep, RepCtx, Distinct, CtxDistinct, Nodes, CtxNodes, Height, Balanced, Focused, Inorder;
      node := start;
      c', t' := c, t;
      StepDown(heap, c', t', root);
      while heap[node].right != NULL
        invariant t'.Node? && node == t'.p && After(c') == After(c) && Plug(c', t') == Plug(c, t)
        invariant Focused(heap, c', t', Height(t'), root)
        invariant node in heap && heap[node].right == Root(t'.r) && (t'.r.Node? <==> Root(t'.r) != NULL)
        decreases t'
      {
        StepDown(heap, c', t', root);
        c', t' := InR(c', t'.l, t'.p), t'.r;
        node := heap[node].right;
        StepDown(heap, c', t', root);
      }
    }

    /** avl_node_first */
    method First() returns (node: Ptr)
      requires Valid()
      ensures node == NextAt(Inorder(tree), -1)
      ensures Inorder(tree) != [] ==> node != NULL
    {
      hide Rep, RepCtx, Distinct, CtxDistinct, Nodes, CtxNodes, Height, Balanced, Focused, Sorted, TotalOrder;
      WholeIsFocused(heap, tree, root);
      node := root;
      if node == NULL { return; }
      ghost var c, t;
      node, c, t := Leftmost(node, Top, tree);
      StepDown(heap, c, t, root);
      EdgeOrder(c, t);
    }

    /** avl_node_last */
    method Last() returns (node: Ptr)
      requires Valid()
      ensures node == PrevAt(Inorder(tree), |Inorder(tree)|)
      ensures Inorder(tree) != [] ==> node != NULL
    {
      hide Rep, RepCtx, Distinct, CtxDistinct, Nodes, CtxNodes, Height, Balanced, Focused, Sorted, TotalOrder;
      WholeIsFocused(heap, tree, root);
      node := root;
      if node == NULL { return; }
      ghost var c, t;
      node, c, t := Rightmost(node, Top, tree);
      StepDown(heap, c, t, root);
      EdgeOrder(c, t);
    }

    /** avl_node_next */
    method Next(start: Ptr) returns (node: Ptr, ghost i: nat)
      requires Valid() && (start == NULL || start in Nodes(tree))
      ensures start == NULL ==> node == NULL
      ensures start != NULL ==> i < |Inorder(tree)| && Inorder(tree)[i] == start && node == NextAt(Inorder(tree), i)
    {
      hide Rep, RepCtx, Distinct, CtxDistinct, Nodes, CtxNodes, Height, Balanced, Focused, Before, After, Inorder,
          Sorted, TotalOrder, NextAt, Rank;
      if start == NULL { return NULL, 0; }
      WholeIsFocused(heap, tree, root);
      ghost var c, t := Locate(heap, Top, tree, start, root);
      StepDown(heap, c, t, root);
      i := Rank(c, t);
      node := start;
      if heap[node].right != NULL {
        ghost var c', t';
        node, c', t' := Leftmost(heap[node].right, InR(c, t.l, t.p), t.r);
        NextByRight(c, t, c', t');
      } else {
        NextByClimb(c, t);
        node := ClimbNext(node, c, t);
      }
    }

    /** The climbing loop of avl_node_next. */
    method ClimbNext(start: Ptr, ghost c0: Ctx, ghost t0: Tree) returns (node: Ptr)
      requires t0.Node? && start == t0.p && Focused(heap, c0, t0, Height(t0), root)
      ensures node == if After(c0) == [] then NULL else After(c0)[0]
    {
      hide Rep, RepCtx, Distinct, CtxDistinct, Nodes, CtxNodes, Height, Balanced, Focused, Before, After, Inorder;
      node := start;
      ghost var c, t, k := c0, t0, Height(t0);
      while true
        invariant Focused(heap, c, t, k, root) && k == Height(t) && t.Node? && node == t.p && After(c) == After(c0)
        decreases c
      {
        var last := node;
        FocusFacts(heap, c, t, k, root);
        node := heap[node].parent;
        if node == NULL { TopAfter(c); break; }
        Sides(heap, c, t, k, root);
        if heap[node].left == last { break; }
        c, t, k := Climb(heap, c, t, k, root);
      }
    }

    /** avl_node_prev */
    method Prev(start: Ptr) returns (node: Ptr, ghost i: nat)
      requires Valid() && (start == NULL || start in Nodes(tree))
      ensures start == NULL ==> node == NULL
      ensures start != NULL ==> i < |Inorder(tree)| && Inorder(tree)[i] == start && node == PrevAt(Inorder(tree), i)
    {
      hide Rep, RepCtx, Distinct, CtxDistinct, Nodes, CtxNodes, Height, Balanced, Focused, Before, After, Inorder,
          Sorted, TotalOrder, PrevAt, Rank;
      if start == NULL { return NULL, 0; }
      WholeIsFocused(heap, tree, root);
      ghost var c, t := Locate(heap, Top, tree, start, root);
      StepDown(heap, c, t, root);
      i := Rank(c, t);
      node := start;
      if heap[node].left != NULL {
        ghost var c', t';
        node, c', t' := Rightmost(heap[node].left, InL(c, t.p, t.r), t.l);
        PrevByLeft(c, t, c', t');
      } else {
        PrevByClimb(c, t);
        node := ClimbPrev(node, c, t);
      }
    }

    /** The climbing loop of avl_node_prev. */
    method ClimbPrev(start: Ptr, ghost c0: Ctx, ghost t0: Tree) returns (node: Ptr)
      requires t0.Node? && start == t0.p && Focused(heap, c0, t0, Height(t0), root)
      ensures node == if Before(c0) == [] then NULL else Before(c0)[|Before(c0)| - 1]
    {
      hide Rep, RepCtx, Distinct, CtxDistinct, Nodes, CtxNodes, Height, Balanced, Focused, Before, After, Inorder;
      node := start;
      ghost var c, t, k := c0, t0, Height(t0);
      while true
        invariant Focused(heap, c, t, k, root) && k == Height(t) && t.Node? && node == t.p && Before(c) == Before(c0)
        decreases c
      {
        var last := node;
        FocusFacts(heap, c, t, k, root);
        node := heap[node].parent;
        if node == NULL { TopAfter(c); break; }
        Sides(heap, c, t, k, root);
        if heap[node].right == last { break; }
        c, t, k := Climb(heap, c, t, k, root);
      }
    }

    /** From a node down to some leaf, left links first. */
    method Sink(start: Ptr, ghost c: Ctx, ghost t: Tree) returns (node: Ptr, ghost c': Ctx)
      requires t.Node? && start == t.p && WiredAt(heap, c, t, root)
      ensures WiredAt(heap, c', Node(Leaf, node, Leaf), root) && Plug(c', Node(Leaf, node, Leaf)) == Plug(c, t)
    {
      hide WiredAt, Nodes;
      node := start;
      ghost var t' := t;
      c' := c;
      WireDown(heap, c', t', root);
      while true
        invariant t'.Node? && node == t'.p && Plug(c', t') == Plug(c, t) && WiredAt(heap, c', t', root)
        decreases t'
      {
        WireDown(heap, c', t', root);
        if heap[node].left != NULL {
          node := heap[node].left;
          c', t' := InL(c', t'.p, t'.r), t'.l;
        } else if heap[node].right != NULL {
          node := heap[node].right;
          c', t' := InR(c', t'.l, t'.p), t'.r;
        } else {
          break;
        }
      }
    }

    /** avl_node_tear: lets go of one leaf, below the cursor if there is one. */
    method Tear(next: Ptr, ghost t: Tree) returns (node: Ptr, next': Ptr, ghost t': Tree)
      requires WiredAt(heap, Top, t, root) && (next == NULL || next in Nodes(t))
      modifies `heap, `root
      ensures WiredAt(heap, Top, t', root) && (next' == NULL || next' in Nodes(t'))
      ensures node == NULL <==> t.Leaf?
      ensures t.Leaf? ==> heap == old(heap) && root == old(root) && t' == t
      ensures t.Node? ==> node in heap && node in Nodes(t) && Nodes(t') == Nodes(t) - {node}
      ensures Outside(old(heap), heap, Nodes(t))
    {
      hide Wired, WiredCtx, WiredAt, Nodes, CtxNodes;
      ghost var h, root0 := heap, root;
      WireRoot(heap, t, root);
      ghost var c, f := Top, t;
      node, next' := next, next;
      if node == NULL {
        if root == NULL {
          t' := t;
          return;
        }
        node := root;
      } else {
        c, f := WireLocate(heap, Top, t, next, root);
      }
      node, c := Sink(node, c, f);
      t' := Plug(c, Leaf);
      WireDown(heap, c, Node(Leaf, node, Leaf), root);
      var parent := heap[node].parent;
      if parent == NULL {
        LeafGone(heap, heap, c, node, root);
        next' := NULL;
        root := NULL;
      } else {
        WireSide(heap, c, Node(Leaf, node, Leaf), root);
        if heap[parent].left == node {
          heap := heap[parent := heap[parent].(left := NULL)];
        } else {
          heap := heap[parent := heap[parent].(right := NULL)];
        }
        heap := heap[node := heap[node].(height := 0)];
        LeafGone(h, heap, c, node, root0);
        next' := parent;
      }
      WireUp(heap, c, Leaf, root);
    }

    /** avl_tree_clear, recording the nodes in the order they are handed to `destroy`. */
    method Clear() returns (torn: seq<Ptr>)
      requires Valid()
      modifies `heap, `root, `count, `tree
      ensures Valid() && tree == Leaf && root == NULL && count == 0
      ensures forall x :: x in torn <==> x in old(Nodes(tree))
      ensures forall i, j :: 0 <= i < j < |torn| ==> torn[i] != torn[j]
      ensures forall x :: x in old(Nodes(tree)) ==> x in heap && heap[x].parent == x
      ensures Outside(old(heap), heap, old(Nodes(tree)))
    {
      hide Wired, WiredCtx, WiredAt, Nodes, CtxNodes, Height, TotalOrder;
      torn := [];
      var next := NULL;
      ghost var t, all := tree, Nodes(tree);
      WholeIsWired(heap, tree, root);
      SizeIsCount(tree);
      while true
        invariant WiredAt(heap, Top, t, root) && (next == NULL || next in Nodes(t)) && count == |Nodes(t)|
        invariant forall x :: x in all <==> x in torn || x in Nodes(t)
        invariant forall x :: x in torn ==> x !in Nodes(t) && x != NULL && x in heap && heap[x].parent == x
        invariant forall i, j :: 0 <= i < j < |torn| ==> torn[i] != torn[j]
        invariant Outside(old(heap), heap, all)
        invariant TotalOrder(compare)
        decreases |Nodes(t)|
      {
        var node;
        ghost var h, s := heap, Nodes(t);
        node, next, t := Tear(next, t);
        if node == NULL { break; }
        WiredElsewhere(heap, t, node, heap[node].(parent := node), root);
        heap := heap[node := heap[node].(parent := node)];
        count := count - 1;
        torn := torn + [node];
      }
      WireRoot(heap, t, root);
      tree := Leaf;
    }
  }
}
