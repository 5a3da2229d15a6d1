/** Deleting a path that was never added from the nibble tree: what the climb of xtree_del does
    when it takes back counts that belong to other keys. */
module TrieCut {
  import opened Common
  import opened TrieShape

  /** The node a search along `path` ends at, starting from `x`. */
  function Reach(h: Heap, x: Ptr, path: Path): Ptr
    decreases |path|
  {
    if x == NULL || path == [] then x
    else if x in h && 0 <= path[0] < |h[x].child| then Reach(h, h[x].child[path[0]], path[1..])
    else NULL
  }

  /** What is cut off at a path is cut off behind it. */
  lemma {:induction false} CutBehind(h: Heap, x: Ptr, a: Path, b: Path)
    requires Reach(h, x, a) == NULL
    ensures Reach(h, x, a + b) == NULL
    decreases |a|
  {
    if x != NULL && a != [] {
      assert (a + b)[0] == a[0] && (a + b)[1..] == a[1..] + b;
      if x in h && 0 <= a[0] < |h[x].child| { CutBehind(h, h[x].child[a[0]], a[1..], b); }
    }
  }

  /** In a sound tree a search ends at the node of its path. */
  lemma {:induction false} ReachIs(h: Heap, at: map<Path, Ptr>, book: Book, p: Path, d: nat)
    requires Inv(h, at, book) && Nibbles(p) && d <= |p| && p[..d] in at
    ensures Reach(h, at[p[..d]], p[d..]) == Ask(at, p)
    decreases |p| - d
  {
    hide Inv;
    NodeAt(h, at, book, p[..d]);
    if d == |p| {
      assert p[..d] == p;
    } else {
      assert p[..d + 1] == p[..d] + [p[d]] && p[d..][0] == p[d] && p[d..][1..] == p[d + 1..];
      if p[..d + 1] in at {
        NodeAt(h, at, book, p[..d + 1]);
        ReachIs(h, at, book, p, d + 1);
      } else {
        NoneBehind(h, at, book, p, d + 1);
      }
    }
  }

  lemma NodeAt(h: Heap, at: map<Path, Ptr>, book: Book, p: Path)
    requires Inv(h, at, book) && p in at
    ensures at[p] in h && at[p] != NULL && |h[at[p]].child| == 16
    ensures forall i :: 0 <= i < 16 ==> h[at[p]].child[i] == Ask(at, p + [i])
    ensures h[at[p]].route == |Through(book, p)| && h[at[p]].mapping == Get(book.vals, p)
    ensures p != [] ==> p[..|p| - 1] in at && h[at[p]].parent == at[p[..|p| - 1]]
  {
    assert NodeOk(h, at, book, [], 1, 0, p);
    if p != [] { MidFacts(h, at, book, [], 1, 0); }
    hide Through, Fans, Twigs;
  }

  lemma {:induction false} NoneBehind(h: Heap, at: map<Path, Ptr>, book: Book, p: Path, d: nat)
    requires Inv(h, at, book) && d <= |p| && p[..d] !in at
    ensures p !in at
    decreases |p| - d
  {
    hide Mid;
    MidFacts(h, at, book, [], 1, 0);
    if d == |p| {
      assert p[..d] == p;
    } else {
      assert p[..d + 1][..|p[..d + 1]| - 1] == p[..d];
      NoneBehind(h, at, book, p, d + 1);
    }
  }

  lemma {:induction false} ReachRecount(h: Heap, x: Ptr, path: Path, y: Ptr, r: int)
    requires y in h
    ensures Reach(h[y := h[y].(route := r)], x, path) == Reach(h, x, path)
    decreases |path|
  {
    if x != NULL && path != [] && x in h && 0 <= path[0] < |h[x].child| {
      ReachRecount(h, h[x].child[path[0]], path[1..], y, r);
    }
  }

  /** The node of the first `e` nibbles of `k`, as the climb needs it. */
  ghost predicate Link(h: Heap, at: map<Path, Ptr>, k: Path, e: nat) {
    && e <= |k| && k[..e] in at && at[k[..e]] in h && at[k[..e]] != NULL && |h[at[k[..e]]].child| == 16
    && (e > 0 ==>
          && k[..e - 1] in at && h[at[k[..e]]].parent == at[k[..e - 1]] && at[k[..e - 1]] in h
          && 0 <= k[e - 1] < |h[at[k[..e - 1]]].child| && h[at[k[..e - 1]]].child[k[e - 1]] == at[k[..e]])
  }

  ghost predicate Chain(h: Heap, at: map<Path, Ptr>, k: Path, d: nat) {
    Injective(at) && d <= |k| && forall e :: 0 <= e <= d ==> Link(h, at, k, e)
  }

  /** Nothing of `k` behind its first `d` nibbles can be reached, or, at its end, it will be so. */
  ghost predicate Severed(h: Heap, at: map<Path, Ptr>, k: Path, d: nat)
    requires d <= |k| && k[..d] in at && at[k[..d]] in h
  {
    if d == |k| then h[at[k[..d]]].route == 1 else Reach(h, at[k[..d]], k[d..]) == NULL
  }

  lemma ChainStart(h: Heap, at: map<Path, Ptr>, book: Book, k: Path)
    requires Inv(h, at, book) && k in at && k != [] && Nibbles(k)
    ensures [] in at && k[..|k| - 1] in at && at[[]] in h && at[k] in h && at[k[..|k| - 1]] in h
    ensures h[at[k]].parent == at[k[..|k| - 1]] && at[k] != at[k[..|k| - 1]]
    ensures var h' := Cleared(h, at[[]], at[k], at[k[..|k| - 1]]);
      Chain(h', at, k, |k|) && h'[at[[]]].route == h[at[[]]].route - 1 && h'[at[k]].route == |Through(book, k)|
  {
    hide Mid, Through;
    MidFacts(h, at, book, [], 1, 0);
    NodeAt(h, at, book, k);
    ApartByLength(at, k) by { InjectiveIn(h, at, book); }
    InjectiveIn(h, at, book);
    var h' := Cleared(h, at[[]], at[k], at[k[..|k| - 1]]);
    forall e | 0 <= e <= |k| ensures Link(h', at, k, e) { LinkStart(h, at, book, k, e); }
    hide Injective;
    RootApart(at, k);
  }

  lemma InjectiveIn(h: Heap, at: map<Path, Ptr>, book: Book)
    requires Inv(h, at, book)
    ensures Injective(at)
  {
  }

  lemma RootApart(at: map<Path, Ptr>, k: Path)
    requires Injective(at) && [] in at && k in at && k != []
    ensures at[k] != at[[]]
  {
  }

  lemma LinkStart(h: Heap, at: map<Path, Ptr>, book: Book, k: Path, e: nat)
    requires Inv(h, at, book) && k in at && k != [] && Nibbles(k) && e <= |k|
    requires [] in at && at[[]] in h && at[k] in h && k[..|k| - 1] in at && at[k[..|k| - 1]] in h
    ensures Link(Cleared(h, at[[]], at[k], at[k[..|k| - 1]]), at, k, e)
  {
    hide Mid, Through;
    if k[..e] !in at { NoneBehind(h, at, book, k, e); }
    NodeAt(h, at, book, k[..e]);
    if e > 0 {
      assert k[..e][..|k[..e]| - 1] == k[..e - 1] && k[..e - 1] + [k[e - 1]] == k[..e];
      NodeAt(h, at, book, k[..e - 1]);
    }
  }

  /** The node at the lower end loses a count, and others still go through it. */
  lemma ChainKeep(h: Heap, at: map<Path, Ptr>, k: Path, d: nat)
    requires Chain(h, at, k, d + 1) && d < |k|
    ensures k[..d + 1] in at && at[k[..d + 1]] in h && k[..d] in at && at[k[..d]] in h && [] in at && at[[]] in h
    ensures var x := at[k[..d + 1]]; var h' := h[x := h[x].(route := h[x].route - 1)];
      && Chain(h', at, k, d) && h[x].parent == at[k[..d]] && at[[]] in h' && h'[at[[]]].route == h[at[[]]].route
      && (Severed(h, at, k, d + 1) && h[x].route != 1 ==> Severed(h', at, k, d))
  {
    assert Link(h, at, k, d + 1) && Link(h, at, k, d) && Link(h, at, k, 0);
    assert k[..0] == [] && |k[..d + 1]| == d + 1;
    var x := at[k[..d + 1]];
    var h' := h[x := h[x].(route := h[x].route - 1)];
    forall e | 0 <= e <= d ensures Link(h', at, k, e) { assert Link(h, at, k, e); }
    if Severed(h, at, k, d + 1) && h[x].route != 1 {
      ReachRecount(h, x, k[d + 1..], x, h[x].route - 1);
      assert k[d..][0] == k[d] && k[d..][1..] == k[d + 1..];
      assert k[..|k|] == k;
    }
  }

  /** Or it is freed. */
  lemma ChainFree(h: Heap, at: map<Path, Ptr>, k: Path, d: nat)
    requires Chain(h, at, k, d + 1) && d < |k|
    ensures k[..d + 1] in at && at[k[..d + 1]] in h && k[..d] in at && at[k[..d]] in h && [] in at && at[[]] in h
    ensures at[k[..d]] != at[k[..d + 1]] && 0 <= k[d] < |h[at[k[..d]]].child|
    ensures var x, p := at[k[..d + 1]], at[k[..d]];
      var h' := (h - {x})[p := h[p].(child := h[p].child[k[d] := NULL], branch := h[p].branch - 1)];
      && Chain(h', at, k, d) && h[x].parent == p && at[[]] in h' && h'[at[[]]].route == h[at[[]]].route
      && Severed(h', at, k, d)
  {
    assert Link(h, at, k, d + 1) && Link(h, at, k, d) && Link(h, at, k, 0);
    assert k[..0] == [] && |k[..d + 1]| == d + 1 && |k[..d]| == d;
    var x, p := at[k[..d + 1]], at[k[..d]];
    var h' := (h - {x})[p := h[p].(child := h[p].child[k[d] := NULL], branch := h[p].branch - 1)];
    forall e | 0 <= e <= d ensures Link(h', at, k, e) {
      assert Link(h, at, k, e);
      assert |k[..e]| == e && (e > 0 ==> |k[..e - 1]| == e - 1);
    }
    assert k[d..][0] == k[d];
    assert Reach(h', NULL, k[d..][1..]) == NULL;
  }

  // ---------------------------------------------------------------- the climb

  /** The climb of a deletion at the first `d` nibbles of `k`. When an addition of `k` is taken back
      (`owned`), the counts above are still one too high; otherwise they are those of other keys,
      the total is what the first write made it, and with a single addition behind `k` (`lone`)
      that one is cut off. */
  ghost predicate Climbing(owned: bool, lone: bool, total: int, h: Heap, at: map<Path, Ptr>, book: Book, k: Path,
      d: nat)
  {
    && [] in at && d <= |k| && k[..d] in at && at[k[..d]] in h
    && (owned ==> Mid(h, at, book, k, 1, d))
    && (!owned ==> Chain(h, at, k, d) && at[[]] in h && h[at[[]]].route == total)
    && (!owned && lone ==> Severed(h, at, k, d))
  }

  lemma ClimbFacts(owned: bool, lone: bool, total: int, h: Heap, at: map<Path, Ptr>, book: Book, k: Path, d: nat)
    requires Climbing(owned, lone, total, h, at, book, k, d + 1) && d < |k| && Nibbles(k)
    ensures k[..d + 1] in at && at[k[..d + 1]] in h && k[..d] in at && h[at[k[..d + 1]]].parent == at[k[..d]]
    ensures at[k[..d]] in h && |h[at[k[..d]]].child| == 16 && 0 <= k[d] < 16 && at[k[..d]] != at[k[..d + 1]]
  {
    hide Mid, Chain, Severed, Nibbles;
    NibbleAt(k, d);
    if owned {
      Extend(k, d, k[..d + 1]);
      MidFacts(h, at, book, k, 1, d + 1);
      ParentOf(h, at, book, k, d + 1, k[..d + 1]);
    } else {
      ChainFree(h, at, k, d);
      ChainKeep(h, at, k, d);
      assert Link(h, at, k, d) by { ChainLink(h, at, k, d + 1, d); }
    }
  }

  lemma ChainLink(h: Heap, at: map<Path, Ptr>, k: Path, d: nat, e: nat)
    requires Chain(h, at, k, d) && e <= d
    ensures Link(h, at, k, e)
  {
  }

  lemma ParentOf(h: Heap, at: map<Path, Ptr>, book: Book, k: Path, d: nat, p: Path)
    requires Mid(h, at, book, k, 1, d) && p in at && p != [] && p[..|p| - 1] in at
    ensures at[p] in h && h[at[p]].parent == at[p[..|p| - 1]] && at[p] != at[p[..|p| - 1]]
  {
    assert NodeOk(h, at, book, k, 1, d, p);
    ApartByLength(at, p);
  }

  lemma ClimbKeep(owned: bool, lone: bool, total: int, h: Heap, at: map<Path, Ptr>, book: Book, k: Path, d: nat)
    requires Climbing(owned, lone, total, h, at, book, k, d + 1) && d < |k| && Nibbles(k)
    requires h[at[k[..d + 1]]].route != 1
    ensures var x := at[k[..d + 1]];
      Climbing(owned, lone, total, h[x := h[x].(route := h[x].route - 1)], at, book, k, d)
  {
    hide Mid, Chain, Severed, Nibbles;
    ClimbFacts(owned, lone, total, h, at, book, k, d);
    if owned { StepKeep(h, at, book, k, d); } else { ChainKeep(h, at, k, d); }
  }

  lemma ClimbFree(owned: bool, lone: bool, total: int, h: Heap, at: map<Path, Ptr>, book: Book, k: Path, d: nat)
    requires Climbing(owned, lone, total, h, at, book, k, d + 1) && d < |k| && Nibbles(k)
    requires h[at[k[..d + 1]]].route == 1
    ensures k[..d] in at && at[k[..d]] in h && 0 <= k[d] < |h[at[k[..d]]].child|
    ensures var x, p := at[k[..d + 1]], at[k[..d]];
      var h' := (h - {x})[p := h[p].(child := h[p].child[k[d] := NULL], branch := h[p].branch - 1)];
      var at' := if owned then at - {k[..d + 1]} else at;
      Climbing(owned, lone, total, h', at', book, k, d)
  {
    hide Mid, Chain, Severed, Nibbles;
    ClimbFacts(owned, lone, total, h, at, book, k, d);
    assert |k[..d + 1]| == d + 1 && |k[..d]| == d;
    if owned { StepPrune(h, at, book, k, d); } else { ChainFree(h, at, k, d); }
  }
}
