/** Key order, search and the height bound of AVL trees. */
module AvlOrder {
  import opened AvlShape
  import opened AvlTurn
  import opened AvlErase

  /** What a tree demands of its comparison: a total preorder, told by the sign. */
  ghost predicate TotalOrder(cmp: (Ptr, Ptr) -> int) {
    && (forall a, b :: cmp(a, b) < 0 <==> cmp(b, a) > 0)
    && (forall a, b, c :: cmp(a, b) <= 0 && cmp(b, c) <= 0 ==> cmp(a, c) <= 0)
  }

  /** Strictly increasing. */
  ghost predicate Sorted(cmp: (Ptr, Ptr) -> int, s: seq<Ptr>) {
    forall i, j :: 0 <= i < j < |s| ==> cmp(s[i], s[j]) < 0
  }

  /** What a search demands of its probe: the answers along the tree are first positive (the key
      is behind the node), then zero at most once, then negative. */
  ghost predicate Separates(probe: Ptr -> int, s: seq<Ptr>) {
    forall i, j :: 0 <= i < j < |s| && probe(s[i]) <= 0 ==> probe(s[j]) < 0
  }

  lemma Behind(cmp: (Ptr, Ptr) -> int, x: Ptr, a: Ptr, b: Ptr)
    requires TotalOrder(cmp) && cmp(x, a) <= 0 && cmp(a, b) < 0
    ensures cmp(x, b) < 0
  {
    assert cmp(b, a) > 0;
    assert cmp(b, x) > 0;
  }

  lemma Irreflexive(cmp: (Ptr, Ptr) -> int, x: Ptr)
    requires TotalOrder(cmp)
    ensures cmp(x, x) == 0
  {}

  lemma OrderSeparates(cmp: (Ptr, Ptr) -> int, x: Ptr, s: seq<Ptr>)
    requires TotalOrder(cmp) && Sorted(cmp, s)
    ensures Separates(y => cmp(x, y), s)
  {
    var probe := y => cmp(x, y);
    forall i, j | 0 <= i < j < |s| && probe(s[i]) <= 0 ensures probe(s[j]) < 0 {
      Behind(cmp, x, s[i], s[j]);
    }
  }

  lemma InsertSorted(cmp: (Ptr, Ptr) -> int, a: seq<Ptr>, x: Ptr, b: seq<Ptr>)
    requires TotalOrder(cmp) && Sorted(cmp, a + b)
    requires (forall y :: y in a ==> cmp(x, y) > 0) && (forall y :: y in b ==> cmp(x, y) < 0)
    ensures Sorted(cmp, a + [x] + b)
  {
    var s, s' := a + b, a + [x] + b;
    forall i, j | 0 <= i < j < |s'| ensures cmp(s'[i], s'[j]) < 0 {
      var i0 := if i <= |a| then i else i - 1;
      var j0 := if j <= |a| then j else j - 1;
      if i != |a| && j != |a| {
        assert s'[i] == s[i0] && s'[j] == s[j0];
      } else if i == |a| {
        assert s'[j] == b[j0 - |a|];
      } else {
        assert s'[i] == a[i];
      }
    }
  }

  lemma RemoveSorted(cmp: (Ptr, Ptr) -> int, s: seq<Ptr>, i: nat)
    requires Sorted(cmp, s) && i < |s|
    ensures Sorted(cmp, s[..i] + s[i + 1..])
  {
    var s' := s[..i] + s[i + 1..];
    forall a, b | 0 <= a < b < |s'| ensures cmp(s'[a], s'[b]) < 0 {
      assert s'[a] == s[if a < i then a else a + 1] && s'[b] == s[if b < i then b else b + 1];
    }
  }

  /** Strict order leaves a node only one position. */
  lemma SortedUnique(cmp: (Ptr, Ptr) -> int, s: seq<Ptr>, i: nat, j: nat)
    requires TotalOrder(cmp) && Sorted(cmp, s) && i < j < |s|
    ensures s[i] != s[j]
  {
    Irreflexive(cmp, s[i]);
  }

  // ---------------------------------------------------------------- search

  /** Everything left of the subtree is before the key, everything right of it is behind. */
  ghost predicate Between(probe: Ptr -> int, c: Ctx) {
    (forall x :: x in Before(c) ==> probe(x) > 0) && (forall x :: x in After(c) ==> probe(x) < 0)
  }

  lemma StartBetween(probe: Ptr -> int)
    ensures Between(probe, Top)
  {}

  /** A search that ran into a gap has missed nothing. */
  lemma NotBetween(probe: Ptr -> int, c: Ctx)
    requires Between(probe, c)
    ensures Inorder(Plug(c, Leaf)) == Before(c) + After(c)
    ensures forall x :: x in Inorder(Plug(c, Leaf)) ==> probe(x) != 0
  {
    InorderPlug(c, Leaf);
    assert Inorder(Leaf) == [];
  }

  /** A node that occurs in neither half does not occur in the surroundings. */
  lemma GapFacts(c: Ctx, x: Ptr)
    requires x !in Inorder(Plug(c, Leaf))
    ensures x !in CtxNodes(c) && Nodes(Plug(c, Leaf)) == CtxNodes(c) && Height(Leaf) == 0
    ensures Inorder(Plug(c, Leaf)) == Before(c) + After(c)
    ensures Inorder(Plug(c, Leaf))[..|Before(c)|] == Before(c) && Inorder(Plug(c, Leaf))[|Before(c)|..] == After(c)
  {
    InorderPlug(c, Leaf);
    NodesPlug(c, Leaf);
    InorderNodes(Plug(c, Leaf));
    assert Inorder(Leaf) == [] && Before(c) + [] + After(c) == Before(c) + After(c);
  }

  lemma Steer(probe: Ptr -> int, c: Ctx, t: Tree)
    requires t.Node? && Separates(probe, Inorder(Plug(c, t))) && Between(probe, c)
    ensures probe(t.p) < 0 ==> Between(probe, InL(c, t.p, t.r))
    ensures probe(t.p) > 0 ==> Between(probe, InR(c, t.l, t.p))
  {
    InorderPlug(c, t);
    TreeParts(t);
    CtxOrder(c, t);
    hide Inorder, Before, After, Plug, Separates;
    SteerSeq(probe, Before(c), Inorder(t.l), t.p, Inorder(t.r), After(c));
  }

  lemma SteerSeq(probe: Ptr -> int, a: seq<Ptr>, l: seq<Ptr>, p: Ptr, r: seq<Ptr>, z: seq<Ptr>)
    requires Separates(probe, a + (l + [p] + r) + z)
    ensures probe(p) < 0 ==> forall x :: x in r ==> probe(x) < 0
    ensures probe(p) > 0 ==> forall x :: x in l ==> probe(x) > 0
  {
    var s := a + (l + [p] + r) + z;
    assert s[|a| + |l|] == p;
    forall i | 0 <= i < |l| && probe(p) > 0 ensures probe(l[i]) > 0 { assert s[|a| + i] == l[i]; }
    forall i | 0 <= i < |r| && probe(p) < 0 ensures probe(r[i]) < 0 { assert s[|a| + |l| + 1 + i] == r[i]; }
  }

  /** The node at the focus, and where it stands in the order. */
  lemma FocusOrder(c: Ctx, t: Tree)
    requires t.Node?
    ensures var s := Inorder(Plug(c, t)); var i := |Before(c)| + |Inorder(t.l)|;
      && i < |s| && s[i] == t.p
      && s[..i] == Before(c) + Inorder(t.l)
      && s[i + 1..] == Inorder(t.r) + After(c)
  {
    InorderPlug(c, t);
    TreeParts(t);
    hide Inorder, Before, After, Plug;
    SplitAt(Before(c), Inorder(t.l), t.p, Inorder(t.r), After(c));
  }

  lemma SplitAt(a: seq<Ptr>, l: seq<Ptr>, p: Ptr, r: seq<Ptr>, z: seq<Ptr>)
    ensures var s := a + (l + [p] + r) + z;
        var i := |a| + |l|; i < |s| && s[i] == p && s[..i] == a + l && s[i + 1..] == r + z
  {
    assert a + (l + [p] + r) + z == (a + l) + [p] + (r + z);
  }

  // ---------------------------------------------------------------- height bound

  function Fib(n: nat): nat { if n < 2 then n else Fib(n - 1) + Fib(n - 2) }

  lemma {:induction false} FibGrows(m: nat, n: nat)
    requires m <= n
    ensures Fib(m) <= Fib(n)
    decreases n
  {
    if m < n { FibGrows(m, n - 1); }
  }

  lemma FibStep(a: nat, b: nat)
    requires Close(a, b)
    ensures Fib(a + 2) + Fib(b + 2) >= Fib(3 + Max(a, b))
  {
    FibGrows(Max(a, b) + 1, (if a < b then a else b) + 2);
  }

  /** A balanced tree of height h has at least Fib(h + 2) - 1 nodes. */
  lemma {:induction false} SizeBound(t: Tree)
    requires Balanced(t)
    ensures |Inorder(t)| >= Fib(Height(t) + 2) - 1
  {
    if t.Node? {
      hide Fib;
      SizeBound(t.l);
      SizeBound(t.r);
      FibStep(Height(t.l), Height(t.r));
    }
  }

  /** Every node counts once. */
  lemma {:induction false} SizeIsCount(t: Tree)
    requires Distinct(t)
    ensures |Nodes(t)| == |Inorder(t)|
  {
    if t.Node? {
      SizeIsCount(t.l);
      SizeIsCount(t.r);
    }
  }

  // ---------------------------------------------------------------- neighbours in the order

  /** The element behind position `i`, NULL at the end, and the one in front of it. */
  function NextAt(s: seq<Ptr>, i: int): Ptr { if 0 <= i + 1 < |s| then s[i + 1] else NULL }
  function PrevAt(s: seq<Ptr>, i: int): Ptr { if 0 <= i - 1 < |s| then s[i - 1] else NULL }

  /** The order read off a focus without a left, or without a right, subtree. */
  lemma EdgeOrder(c: Ctx, t: Tree)
    requires t.Node?
    ensures var s := Inorder(Plug(c, t));
      && (t.l.Leaf? ==> |Before(c)| < |s| && s[|Before(c)|] == t.p)
      && (t.r.Leaf? ==> |After(c)| < |s| && s[|s| - 1 - |After(c)|] == t.p)
      && (t.r.Leaf? ==> NextAt(s, |s| - 1 - |After(c)|) == if After(c) == [] then NULL else After(c)[0])
      && (t.l.Leaf? ==> PrevAt(s, |Before(c)|) == if Before(c) == [] then NULL else Before(c)[|Before(c)| - 1])
  {
    InorderPlug(c, t);
    TreeParts(t);
    EmptySides(t);
    hide Inorder, Before, After, Plug;
    var a, z := Before(c), After(c);
    if t.l.Leaf? { EdgeLeft(a, t.p, Inorder(t.r), z); }
    if t.r.Leaf? { EdgeRight(a, Inorder(t.l), t.p, z); }
  }

  lemma EdgeLeft(a: seq<Ptr>, p: Ptr, r: seq<Ptr>, z: seq<Ptr>)
    ensures var s := a + ([] + [p] + r) + z; |a| < |s| && s[|a|] == p && (a != [] ==> s[|a| - 1] == a[|a| - 1])
  {}

  lemma EdgeRight(a: seq<Ptr>, l: seq<Ptr>, p: Ptr, z: seq<Ptr>)
    ensures var s := a + (l + [p] + []) + z; |z| < |s| && s[|s| - 1 - |z|] == p && (z != [] ==> s[|s| - |z|] == z[0])
  {}

  lemma CtxOrder(c: Ctx, t: Tree)
    requires t.Node?
    ensures Before(InR(c, t.l, t.p)) == Before(c) + Inorder(t.l) + [t.p]
    ensures After(InL(c, t.p, t.r)) == [t.p] + Inorder(t.r) + After(c)
    ensures Before(InL(c, t.p, t.r)) == Before(c) && After(InR(c, t.l, t.p)) == After(c)
  {}

  /** Of the four links of a climb, those that tell from which side it came. */
  lemma Sides(h: Heap, c: Ctx, t: Tree, k: int, root: Ptr)
    requires Focused(h, c, t, k, root) && !c.Top? && t.Node?
    ensures c.p in h && (h[c.p].left == t.p <==> c.InL?) && (h[c.p].right == t.p <==> c.InR?)
    ensures c.InL? ==> After(c) != [] && After(c)[0] == c.p && Before(c) == Before(c.up)
    ensures c.InR? ==> Before(c) != [] && Before(c)[|Before(c)| - 1] == c.p && After(c) == After(c.up)
  {
    hide Height, Balanced;
    StepUp(h, c, t, k, root);
    var s := Sibling(c);
    RootFacts(h, s, c.p);
    assert t.p in Nodes(t);
    assert s.Node? ==> s.p in CtxNodes(c);
    if c.InR? { assert (Before(c.up) + Inorder(c.l) + [c.p])[|Before(c)| - 1] == c.p; }
  }

  /** Enumerating forwards and backwards undo each other. */
  lemma NeighboursInverse(cmp: (Ptr, Ptr) -> int, s: seq<Ptr>, i: nat, j: nat)
    requires TotalOrder(cmp) && Sorted(cmp, s) && i < |s| && j < |s| && NULL !in s
    ensures NextAt(s, i) == s[j] <==> PrevAt(s, j) == s[i]
    ensures NextAt(s, i) == NULL <==> i == |s| - 1
    ensures PrevAt(s, i) == NULL <==> i == 0
  {
    if i + 1 < j { SortedUnique(cmp, s, i + 1, j); SortedUnique(cmp, s, i, j - 1); }
    if j < i + 1 < |s| { SortedUnique(cmp, s, j, i + 1); }
    if 0 < j <= i { SortedUnique(cmp, s, j - 1, i); }
  }

  lemma TopAfter(c: Ctx)
    ensures c.Top? ==> After(c) == [] && Before(c) == []
  {}

  /** Climbing in an intact tree. */
  lemma Climb(h: Heap, c: Ctx, t: Tree, k: int, root: Ptr) returns (c': Ctx, t': Tree, k': int)
    requires !c.Top? && Focused(h, c, t, k, root) && k == Height(t)
    ensures c' == c.up && t' == Above(c, t) && k' == Height(t') && Focused(h, c', t', k', root)
  {
    StepUp(h, c, t, k, root);
    c', t', k' := c.up, Above(c, t), AboveHeight(c, k);
    Settled(h, c', LeftOf(c, t), c.p, RightOf(c, t), k', root);
  }

  // ---------------------------------------------------------------- where a neighbour is found

  /** Where a node stands in the order. */
  function Rank(c: Ctx, t: Tree): nat
    requires t.Node?
  {
    |Before(c)| + |Inorder(t.l)|
  }

  /** The leftmost node on the right is the next one. */
  lemma NextByRight(c: Ctx, t: Tree, c': Ctx, t': Tree)
    requires t.Node? && t'.Node? && t'.l.Leaf? && Plug(c', t') == Plug(c, t) && Before(c') == Before(InR(c, t.l, t.p))
    ensures var s, i := Inorder(Plug(c, t)), Rank(c, t); i < |s| && s[i] == t.p && NextAt(s, i) == t'.p
  {
    hide Inorder, Before, After, Plug, NextAt;
    FocusOrder(c, t);
    CtxOrder(c, t);
    FocusOrder(c', t');
    EmptySides(t');
    BehindEdge(Inorder(Plug(c, t)), Before(c), Inorder(t.l), t.p, Rank(c', t'), t'.p);
  }

  lemma BehindEdge(s: seq<Ptr>, a: seq<Ptr>, l: seq<Ptr>, p: Ptr, j: nat, x: Ptr)
    requires j == |a + l + [p]| < |s| && s[j] == x
    ensures NextAt(s, |a| + |l|) == x
  {
  }

  lemma NextByClimb(c: Ctx, t: Tree)
    requires t.Node? && t.r.Leaf?
    ensures var s, i := Inorder(Plug(c, t)), Rank(c, t);
      i < |s| && s[i] == t.p && NextAt(s, i) == if After(c) == [] then NULL else After(c)[0]
  {
    FocusOrder(c, t);
    EmptySides(t);
    hide Inorder, Before, After, Plug;
    var s, i := Inorder(Plug(c, t)), Rank(c, t);
    assert [] + After(c) == After(c);
    assert i + 1 < |s| ==> s[i + 1] == s[i + 1..][0];
  }

  lemma PrevByLeft(c: Ctx, t: Tree, c': Ctx, t': Tree)
    requires t.Node? && t'.Node? && t'.r.Leaf? && Plug(c', t') == Plug(c, t) && After(c') == After(InL(c, t.p, t.r))
    ensures var s, i := Inorder(Plug(c, t)), Rank(c, t); i < |s| && s[i] == t.p && PrevAt(s, i) == t'.p
  {
    hide Inorder, Before, After, Plug, PrevAt;
    FocusOrder(c, t);
    CtxOrder(c, t);
    FocusOrder(c', t');
    EmptySides(t');
    AheadOfEdge(Inorder(Plug(c, t)), Rank(c, t), Inorder(t.r), After(c), t.p, Rank(c', t'), t'.p);
  }

  lemma AheadOfEdge(s: seq<Ptr>, i: nat, r: seq<Ptr>, z: seq<Ptr>, p: Ptr, j: nat, x: Ptr)
    requires i < |s| && s[i + 1..] == r + z && j < |s| && s[j] == x && s[j + 1..] == [] + ([p] + r + z)
    ensures PrevAt(s, i) == x
  {
    assert |s| - i - 1 == |r + z| && |s| - j - 1 == |[p] + r + z|;
  }

  lemma PrevByClimb(c: Ctx, t: Tree)
    requires t.Node? && t.l.Leaf?
    ensures var s, i := Inorder(Plug(c, t)), Rank(c, t);
      i < |s| && s[i] == t.p && PrevAt(s, i) == if Before(c) == [] then NULL else Before(c)[|Before(c)| - 1]
  {
    FocusOrder(c, t);
    EmptySides(t);
    hide Inorder, Before, After, Plug;
    var s, i := Inorder(Plug(c, t)), Rank(c, t);
    assert Before(c) + [] == Before(c);
    assert i > 0 ==> s[i - 1] == s[..i][i - 1];
  }
}
