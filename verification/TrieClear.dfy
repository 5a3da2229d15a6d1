/** Clearing the nibble tree: leaves are freed from left to right, and a node becomes a leaf when
    its last child is freed. The counts of keys are given up on the way. */
module TrieClear {
  import opened Common
  import opened TrieShape
  import opened TrieKeys

  /** What the node at path `p` holds, its count of keys aside. */
  ghost predicate Stands(h: Heap, at: map<Path, Ptr>, book: Book, p: Path) {
    && p in at && at[p] in h && at[p] != NULL && |h[at[p]].child| == 16
    && (forall i :: 0 <= i < 16 ==> h[at[p]].child[i] == Ask(at, p + [i]))
    && h[at[p]].mapping == Get(book.vals, p)
    && h[at[p]].branch == |Fans(at.Keys, p)|
    && h[at[p]].leaves == |Twigs(book, p)| % 0x10000
    && (p != [] ==> h[at[p]].parent == Ask(at, p[..|p| - 1]) && h[at[p]].index == p[|p| - 1])
    && (p == [] ==> h[at[p]].parent == NULL)
  }

  /** What is left of the tree. */
  ghost predicate Standing(h: Heap, at: map<Path, Ptr>, book: Book) {
    && Injective(at) && [] in at
    && (forall p :: p in at ==> Stands(h, at, book, p))
    && (forall p :: p in at ==> Nibbles(p))
    && (forall p :: p in at && p != [] ==> p[..|p| - 1] in at)
  }

  /** Nothing is left of the cursor: neither below the nodes on the way to it nor below its own. */
  ghost predicate LeftGone(at: map<Path, Ptr>, p: Path, i: int) {
    && (forall j :: 0 <= j < i ==> p + [j] !in at)
    && (forall l, j :: 0 <= l < |p| && 0 <= j < p[l] ==> p[..l] + [j] !in at)
  }

  /** The values handed out are those of the stored paths that are gone, each once. */
  ghost predicate Handed(at: map<Path, Ptr>, vals: map<Path, Val>, cleared: seq<Val>, gone: seq<Path>) {
    && |cleared| == |gone|
    && (forall i :: 0 <= i < |gone| ==> gone[i] in vals && cleared[i] == vals[gone[i]])
    && (forall i, j :: 0 <= i < j < |gone| ==> gone[i] != gone[j])
    && (forall q :: q in vals ==> (q in gone <==> q !in at))
  }

  ghost predicate NonZero(vals: map<Path, Val>) { forall q :: q in vals ==> vals[q] != 0 }

  lemma InvStands(h: Heap, at: map<Path, Ptr>, book: Book)
    requires Inv(h, at, book)
    ensures Standing(h, at, book) && Handed(at, book.vals, [], []) && NonZero(book.vals)
    ensures h[at[[]]].route == |book.held|
  {
    hide Nibbles, Stands, NodeOk, Injective, Wanted, Domain, Through;
    MidFacts(h, at, book, [], 1, 0);
    forall p | p in at ensures Stands(h, at, book, p) && Nibbles(p) {
      NodeStands(h, at, book, p);
      PathIsNibbles(h, at, book, p);
    }
    forall q | q in book.vals ensures q in at { StoredInAt(h, at, book, q); }
    RootCounts(h, at, book);
  }

  lemma NodeStands(h: Heap, at: map<Path, Ptr>, book: Book, p: Path)
    requires NodeOk(h, at, book, [], 1, 0, p)
    ensures Stands(h, at, book, p)
  {
    hide Fans, Through;
  }

  lemma StoredInAt(h: Heap, at: map<Path, Ptr>, book: Book, q: Path)
    requires Inv(h, at, book) && q in book.vals
    ensures q in at
  {
    hide NodeOk;
    ValueHeld(book, q);
    assert Wanted(book, [], 0, q);
  }

  lemma RootCounts(h: Heap, at: map<Path, Ptr>, book: Book)
    requires Inv(h, at, book) && [] in at
    ensures at[[]] in h && h[at[[]]].route == |book.held|
  {
    assert NodeOk(h, at, book, [], 1, 0, []);
    assert Through(book, []) == book.held.Keys;
  }

  lemma PathIsNibbles(h: Heap, at: map<Path, Ptr>, book: Book, p: Path)
    requires Inv(h, at, book) && p in at
    ensures Nibbles(p)
  {
    assert Wanted(book, [], 0, p);
    if p != [] {
      var s :| s in Through(book, p);
      var q := book.held[s];
      assert forall i :: 0 <= i < |p| ==> p[i] == q[..|p|][i] == q[i];
    }
  }

  lemma StandingAt(h: Heap, at: map<Path, Ptr>, book: Book, p: Path)
    requires Standing(h, at, book) && p in at
    ensures at[p] in h && at[p] != NULL && |h[at[p]].child| == 16 && h[at[p]].mapping == Get(book.vals, p)
    ensures h[at[p]].branch == |Fans(at.Keys, p)| && (h[at[p]].branch == 0 <==> Fans(at.Keys, p) == {})
    ensures forall i :: 0 <= i < 16 ==> h[at[p]].child[i] == Ask(at, p + [i])
    ensures p != [] ==> var u := p[..|p| - 1];
      u in at && h[at[p]].parent == at[u] && h[at[p]].index == p[|p| - 1] && 0 <= p[|p| - 1] < 16 && at[u] != at[p]
    ensures p == [] ==> h[at[p]].parent == NULL
  {
    assert Stands(h, at, book, p);
    if p != [] { ApartByLength(at, p); }
  }

  lemma StandingRoot(h: Heap, at: map<Path, Ptr>, book: Book)
    requires Standing(h, at, book)
    ensures Injective(at) && [] in at
  {
  }

  /** A changed count of keys changes nothing. */
  lemma Recounted(h: Heap, at: map<Path, Ptr>, book: Book, x: Ptr, v: int)
    requires Standing(h, at, book) && x in h
    ensures Standing(h[x := h[x].(route := v)], at, book)
  {
    hide Fans, Nibbles;
    var h' := h[x := h[x].(route := v)];
    forall p | p in at ensures Stands(h', at, book, p) { assert Stands(h, at, book, p); }
  }

  /** A leaf is freed. */
  lemma Freed(h: Heap, at: map<Path, Ptr>, book: Book, p: Path)
    requires Standing(h, at, book) && p in at && p != [] && Fans(at.Keys, p) == {}
    ensures p[..|p| - 1] in at && at[p[..|p| - 1]] in h && |h[at[p[..|p| - 1]]].child| == 16 && 0 <= p[|p| - 1] < 16
    ensures var u, i := at[p[..|p| - 1]], p[|p| - 1];
      Standing((h - {at[p]})[u := h[u].(child := h[u].child[i := NULL], branch := h[u].branch - 1)], at - {p}, book)
  {
    hide Fans, Nibbles, Stands, Injective;
    StandingAt(h, at, book, p);
    StandingAt(h, at, book, p[..|p| - 1]);
    var u, i := at[p[..|p| - 1]], p[|p| - 1];
    var h', at' := (h - {at[p]})[u := h[u].(child := h[u].child[i := NULL], branch := h[u].branch - 1)], at - {p};
    forall r | r in at' ensures Stands(h', at', book, r) && (r != [] ==> r[..|r| - 1] in at') {
      if r != [] { IsChild(at, r); }
      FreedOther(h, at, book, p, r);
    }
    InjectiveShrinks(at, p);
  }

  lemma IsChild(at: map<Path, Ptr>, r: Path)
    requires r in at && r != [] && Nibbles(r)
    ensures r[|r| - 1] in Fans(at.Keys, r[..|r| - 1])
  {
    assert r[..|r| - 1] + [r[|r| - 1]] == r;
  }

  lemma FreedOther(h: Heap, at: map<Path, Ptr>, book: Book, p: Path, r: Path)
    requires Stands(h, at, book, r) && Injective(at) && p in at && p != [] && p[..|p| - 1] in at && r != p
    requires at[p[..|p| - 1]] in h && |h[at[p[..|p| - 1]]].child| == 16 && 0 <= p[|p| - 1] < 16
    requires r != [] ==> r[..|r| - 1] != p
    ensures var u, i := at[p[..|p| - 1]], p[|p| - 1];
      Stands((h - {at[p]})[u := h[u].(child := h[u].child[i := NULL], branch := h[u].branch - 1)], at - {p}, book, r)
  {
    var f, i := p[..|p| - 1], p[|p| - 1];
    var at' := at - {p};
    assert f + [i] == p;
    FansDrop(at.Keys, f, i, r);
    assert at'.Keys == at.Keys - {p};
    forall j | 0 <= j < 16 ensures Ask(at', r + [j]) == if r == f && j == i then NULL else Ask(at, r + [j]) {
        SplitLast(r, j, f, i); }
    hide Fans;
  }

  // ---------------------------------------------------------------- the cursor

  lemma StepRight(at: map<Path, Ptr>, p: Path, i: int)
    requires LeftGone(at, p, i) && p + [i] !in at
    ensures LeftGone(at, p, i + 1)
  {
  }

  lemma StepDown(at: map<Path, Ptr>, p: Path, i: int)
    requires LeftGone(at, p, i)
    ensures LeftGone(at, p + [i], 0)
  {
    var e := p + [i];
    forall l, j | 0 <= l < |e| && 0 <= j < e[l] ensures e[..l] + [j] !in at {
      if l < |p| { assert e[..l] == p[..l]; } else { assert e[..l] == p; }
    }
  }

  lemma StepUp(at: map<Path, Ptr>, p: Path, i: int)
    requires LeftGone(at, p, i) && p != []
    ensures LeftGone(at - {p}, p[..|p| - 1], p[|p| - 1] + 1)
  {
    var u, x := p[..|p| - 1], p[|p| - 1];
    assert u + [x] == p;
    forall j | 0 <= j < x + 1 ensures u + [j] !in at - {p} {
      if j < x { assert p[..|u|] == u && p[|u|] == x; }
    }
    forall l, j | 0 <= l < |u| && 0 <= j < u[l] ensures u[..l] + [j] !in at { assert p[..l] == u[..l]; }
  }

  /** With the cursor past the last slot the node is a leaf. */
  lemma PastLast(at: map<Path, Ptr>, p: Path)
    requires LeftGone(at, p, 16)
    ensures Fans(at.Keys, p) == {}
  {
  }

  ghost function Subtree(at: map<Path, Ptr>, p: Path): set<Path> {
    set q | q in at && Prefix(p, q)
  }

  lemma Deeper(at: map<Path, Ptr>, p: Path, i: int)
    requires p in at
    ensures Subtree(at, p + [i]) < Subtree(at, p)
  {
    var e := p + [i];
    forall q | q in Subtree(at, e) ensures q in Subtree(at, p) { assert q[..|p|] == q[..|e|][..|p|]; }
    assert p in Subtree(at, p) && p !in Subtree(at, e);
  }

  // ---------------------------------------------------------------- the values

  lemma HandMore(at: map<Path, Ptr>, vals: map<Path, Val>, cleared: seq<Val>, gone: seq<Path>, p: Path)
    requires Handed(at, vals, cleared, gone) && p in at
    ensures if p in vals then Handed(at - {p}, vals, cleared + [vals[p]], gone + [p]) else Handed(at - {p}, vals,
        cleared, gone)
  {
    if p in vals {
      var g := gone + [p];
      assert forall q :: q in g <==> q in gone || q == p;
    }
  }

  lemma NoMoreThanStored(at: map<Path, Ptr>, vals: map<Path, Val>, cleared: seq<Val>, gone: seq<Path>)
    requires Handed(at, vals, cleared, gone) && forall q :: q in vals ==> q !in at
    ensures |gone| == |vals| == |cleared|
  {
    var s := set q | q in gone;
    SizeOfOnce(gone, s);
    assert s == vals.Keys;
  }

  lemma {:induction false} SizeOfOnce(g: seq<Path>, s: set<Path>)
    requires (forall i, j :: 0 <= i < j < |g| ==> g[i] != g[j]) && forall q :: q in s <==> q in g
    ensures |s| == |g|
    decreases |g|
  {
    if g != [] {
      var n := |g| - 1;
      var front := g[..n];
      assert g == front + [g[n]];
      var t := s - {g[n]};
      forall q ensures q in t <==> q in front {
        if q in front { var i :| 0 <= i < n && front[i] == q; assert g[i] == q; }
      }
      SizeOfOnce(front, t);
      assert s == t + {g[n]};
    } else {
      assert s == {};
    }
  }

  // ---------------------------------------------------------------- the end

  /** A root without children is all there is. */
  lemma OnlyRoot(h: Heap, at: map<Path, Ptr>, book: Book)
    requires Standing(h, at, book) && Fans(at.Keys, []) == {}
    ensures at == map[[] := at[[]]]
  {
    forall p | p in at ensures p == [] {
      if p != [] { HasFirst(h, at, book, p); }
    }
  }

  lemma {:induction false} HasFirst(h: Heap, at: map<Path, Ptr>, book: Book, p: Path)
    requires Standing(h, at, book) && p in at && p != []
    ensures Fans(at.Keys, []) != {}
    decreases |p|
  {
    hide Stands;
    if |p| > 1 {
      HasFirst(h, at, book, p[..|p| - 1]);
    } else {
      assert p == [] + [p[0]];
      assert p[0] in Fans(at.Keys, []);
    }
  }

  /** The root alone is an empty tree again, when its counts are zero. */
  lemma EmptyAgain(h: Heap, at: map<Path, Ptr>, book: Book, calls: map<nat, Bytes>)
    requires Standing(h, at, book) && at == map[[] := at[[]]] && Called(calls, book.held) && [] !in book.vals
    ensures at[[]] in h && (Inv(h, at, Book(map[], map[])) <==> h[at[[]]].route == 0)
  {
    hide Fans, Nib;
    var none: Book := Book(map[], map[]);
    NoTwigs(book, calls);
    forall p ensures Through(none, p) == {} && Twigs(none, p) == {} {}
    hide Twigs, Through;
    assert Stands(h, at, book, []);
    assert NodeOk(h, at, none, [], 1, 0, []) <==> h[at[[]]].route == 0;
    assert Backed(none);
    forall p ensures p in at <==> Wanted(none, [], 0, p) { assert Through(none, p) == {}; }
  }

  lemma NoTwigs(book: Book, calls: map<nat, Bytes>)
    requires Called(calls, book.held)
    ensures Twigs(book, []) == {}
  {
    forall s | s in book.held ensures |book.held[s]| >= 2 { assert |Nib(calls[s])| == 2 * |calls[s]|; }
  }

  lemma StoredLength(contents: map<Bytes, Val>, vals: map<Path, Val>, q: Path)
    requires Spelled(contents, vals) && q in vals
    ensures |q| >= 2
  {
    var k :| k in contents && Nib(k) == q;
    assert |Nib(k)| == 2 * |k|;
  }

  /** The keys whose values were handed out. */
  lemma GoneKeys(at: map<Path, Ptr>, contents: map<Bytes, Val>, vals: map<Path, Val>, cleared: seq<Val>,
      gone: seq<Path>)
    returns (keys: seq<Bytes>)
    requires Spelled(contents, vals) && Handed(at, vals, cleared, gone) && forall q :: q in vals ==> q !in at
    ensures |keys| == |cleared| && forall i ::
        0 <= i < |keys| ==> keys[i] in contents && cleared[i] == contents[keys[i]]
    ensures forall k :: k in contents ==> k in keys
    ensures forall i, j :: 0 <= i < j < |keys| ==> keys[i] != keys[j]
  {
    hide Nib;
    keys := KeysOf(contents, vals, gone);
    forall k | k in contents ensures k in keys {
      assert Nib(k) in gone;
      var i :| 0 <= i < |gone| && gone[i] == Nib(k);
      NibInjective(keys[i], k);
    }
  }
}
