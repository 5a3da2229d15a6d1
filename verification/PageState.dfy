/** The invariant of an xmalloc page and what each elementary step of free and malloc does to
    it.  During a free, `x` is the block being given back (CLOSED otherwise). */
module PageState {
  import opened Blocks
  import opened FreeList

  function Nodes(L: seq<int>, E: int): seq<int> { [0] + L + [E] }

  /** Free blocks are the main block and the blocks of the list, each once. */
  ghost predicate Listed(F: set<int>, L: seq<int>, ptr: int) {
    && ptr in F && ptr !in L
    && (forall f :: f in F ==> f == ptr || f in L)
    && (forall k :: 0 <= k < |L| ==> L[k] in F)
  }

  ghost predicate PageOk(m: Mem, ptr: int, S: set<int>, F: set<int>, L: seq<int>, E: int, tag: int, x: int) {
    && Layout(m, S, F, E, tag, x)
    && Chain(m, Nodes(L, E))
    && Listed(F, L, ptr)
    && tag % 2 == 1
    && (x == CLOSED || (x in S && x !in F && x != 0 && x != E))
  }

  /** Words that a step must leave alone: sizes and memory of allocated blocks, never a flag and
      never in a header that a step may write. */
  ghost predicate Guarded(P: set<int>, S: set<int>, F: set<int>, E: int, x: int) {
    forall w, s :: w in P && s in S ==>
      !(s <= w < s + 8) && (s in F + {x, 0, E} ==> !(s <= w < s + FREE_HEAD))
  }

  ghost predicate Kept(P: set<int>, m: Mem, m': Mem) {
    |m'| == |m| && forall w :: w in P && 0 <= w < |m| ==> m'[w] == m[w]
  }

  // ---------------------------------------------------------------- reading flags

  /** An even flag means that the block in front is free, and leads to it. */
  lemma FlagTells(m: Mem, S: set<int>, F: set<int>, E: int, tag: int, x: int, p: int) returns (q: int)
    requires Layout(m, S, F, E, tag, x) && tag % 2 == 1 && p in S && p != 0
    requires forall s {:trigger Next(m, s)} :: s in S && s != E && Next(m, s) == p ==> s != x
    ensures q in S && q < p && q != E && Next(m, q) == p && q != x
    ensures forall s {:trigger Next(m, s)} :: s in S && s != E && Next(m, s) == p ==> s == q
    ensures m[p] % 2 == 0 <==> q in F
    ensures q in F ==> q == p - m[p]
  {
    q := HasPrev(m, S, E, p);
    assert m[p] == if q in F then p - q else tag;
    assert Placed(m, E, q) && Placed(m, E, p);
    EvenGap(q, p);
  }

  lemma EvenGap(q: int, p: int)
    requires q % 8 == 0 && p % 8 == 0
    ensures (p - q) % 2 == 0
  {
    var k := 4 * (p / 8 - q / 8);
    assert p == 8 * (p / 8) && q == 8 * (q / 8);
    assert p - q == 2 * k;
    Twice(k);
  }

  lemma Twice(k: int)
    ensures (2 * k) % 2 == 0
  {
  }

  lemma ListIndex(F: set<int>, L: seq<int>, ptr: int, f: int) returns (k: nat)
    requires Listed(F, L, ptr) && f in F && f != ptr
    ensures k < |L| && L[k] == f
  {
    k :| 0 <= k < |L| && L[k] == f;
  }

  /** Two blocks' headers never overlap. */
  lemma HeadersApart(m: Mem, S: set<int>, E: int, s: int, t: int)
    requires Tiles(m, S, E) && s in S && t in S && s != t
    ensures !Near(s, t) && Placed(m, E, s) && Placed(m, E, t)
  {
    if s < t { Spacing(m, S, E, s, t); } else { Spacing(m, S, E, t, s); }
  }

  lemma NodesPlaced(m: Mem, S: set<int>, F: set<int>, L: seq<int>, E: int, tag: int, x: int, ptr: int)
    requires Layout(m, S, F, E, tag, x) && Listed(F, L, ptr) && x != 0 && x != E
    ensures var N := Nodes(L, E); forall k :: 0 <= k < |N| ==> N[k] in S && N[k] != x && Placed(m, E, N[k])
  {
    var N := Nodes(L, E);
    forall k | 0 <= k < |N| ensures N[k] in S && N[k] != x && Placed(m, E, N[k]) {
      if 0 < k < |N| - 1 { assert N[k] == L[k - 1] && L[k - 1] in F; }
    }
  }

  lemma ListedWithout(F: set<int>, L: seq<int>, ptr: int, k: nat, m: Mem, E: int)
    requires Listed(F, L, ptr) && k < |L| && Chain(m, Nodes(L, E))
    ensures Listed(F - {L[k]}, Without(L, k), ptr)
    ensures Nodes(Without(L, k), E) == Without(Nodes(L, E), k + 1)
  {
    var L' := Without(L, k);
    assert Nodes(L, E)[k + 1] == L[k];
    forall f | f in F - {L[k]} ensures f == ptr || f in L' {
      if f != ptr {
        var j := ListIndex(F, L, ptr, f);
        assert f == if j < k then L'[j] else L'[j - 1];
      }
    }
    forall j | 0 <= j < |L'| ensures L'[j] in F - {L[k]} {
      var i := if j < k then j else j + 1;
      assert L'[j] == Nodes(L, E)[i + 1];
      assert !Near(Nodes(L, E)[i + 1], Nodes(L, E)[k + 1]) by {
        if i < k { assert !Near(Nodes(L, E)[i + 1], Nodes(L, E)[k + 1]); }
        else { assert !Near(Nodes(L, E)[k + 1], Nodes(L, E)[i + 1]); }
      }
    }
  }

  // ---------------------------------------------------------------- taking a neighbour in

  /** Unlinking a node writes links of its neighbours only. */
  lemma UnlinkWords(m: Mem, ptr: int, S: set<int>, F: set<int>, L: seq<int>, E: int, tag: int, x: int, k: nat,
      P: set<int>)
    requires PageOk(m, ptr, S, F, L, E, tag, x) && k < |L| && Guarded(P, S, F, E, x)
    ensures 0 <= L[k] && L[k] + FREE_HEAD <= |m|
    ensures var l, r := m[L[k] + 16], m[L[k] + 24];
            && l in S && r in S && l in F + {0} && r in F + {E}
            && !Near(L[k], l) && !Near(L[k], r) && Placed(m, E, l) && Placed(m, E, r)
    ensures var m' := Unlinked(m, L[k]);
            && Chain(m', Nodes(Without(L, k), E))
            && (forall t :: t in S ==> m'[t] == m[t] && m'[t + 8] == m[t + 8])
            && Kept(P, m, m')
  {
    hide Layout, Chain;
    assert Layout(m, S, F, E, tag, x) && Tiles(m, S, E) && Apart(m, S, F, E, x) by {
        LayoutParts(m, S, F, E, tag, x); }
    var N := Nodes(L, E);
    assert N[k + 1] == L[k];
    NodesPlaced(m, S, F, L, E, tag, x, ptr);
    UnlinkChain(m, N, k + 1);
    ListedWithout(F, L, ptr, k, m, E);
    var l, r := N[k], N[k + 2];
    assert l == 0 || l == L[k - 1];
    assert r == E || r == L[k + 1];
    HeadersApart(m, S, E, L[k], r);
    NotSelf(m, N, k);
    HeadersApart(m, S, E, L[k], l);
    var m' := Unlinked(m, L[k]);
    forall t | t in S ensures m'[t] == m[t] && m'[t + 8] == m[t + 8] {
      assert Placed(m, E, t);
      if t != l { HeadersApart(m, S, E, t, l); }
      if t != r { HeadersApart(m, S, E, t, r); }
    }
    assert Kept(P, m, m') by {
      assert forall w :: w in P ==> w != l + 24 && w != r + 16;
    }
  }

  lemma LayoutParts(m: Mem, S: set<int>, F: set<int>, E: int, tag: int, x: int)
    requires Layout(m, S, F, E, tag, x)
    ensures Tiles(m, S, E) && Flags(m, S, F, E, tag, x) && Apart(m, S, F, E, x)
  {
  }

  lemma NotSelf(m: Mem, N: seq<int>, k: nat)
    requires Chain(m, N) && k + 2 < |N|
    ensures N[k] != N[k + 1] && N[k + 1] != N[k + 2]
  {
    assert !Near(N[k], N[k + 1]) && !Near(N[k + 1], N[k + 2]);
  }

  /** Writing one header word keeps guarded memory. */
  lemma KeptWrite(P: set<int>, m: Mem, m': Mem, S: set<int>, F: set<int>, E: int, x: int, s: int, d: int, v: int)
    requires Kept(P, m, m') && Guarded(P, S, F, E, x) && s in S && 0 <= s + d < |m|
    requires 0 <= d < 8 || (s in F + {x, 0, E} && 0 <= d < FREE_HEAD)
    ensures Kept(P, m, m'[s + d := v])
  {
  }

  /** Merging the block being freed with a list block that touches it: `a` is the lower of the
      two, `b` the upper. */
  lemma JoinStep(m: Mem, ptr: int, S: set<int>, F: set<int>, L: seq<int>, E: int, tag: int, x: int,
                 k: nat, a: int, b: int, P: set<int>)
    requires PageOk(m, ptr, S, F, L, E, tag, x) && Guarded(P, S, F, E, x) && x != CLOSED && k < |L|
    requires (a == x && b == L[k]) || (a == L[k] && b == x)
    requires a in S && b in S && a != E && b != E && Next(m, a) == b
    ensures 0 <= L[k] && L[k] + FREE_HEAD <= |m|
    ensures var l, r := m[L[k] + 16], m[L[k] + 24];
            !Near(L[k], l) && !Near(L[k], r) && Placed(m, E, l) && Placed(m, E, r)
    ensures var m' := Unlinked(m, L[k])[a + 8 := m[a + 8] + m[b + 8]];
            && PageOk(m', ptr, S - {b}, F - {L[k]}, Without(L, k), E, tag, a)
            && Guarded(P, S - {b}, F - {L[k]}, E, a) && Kept(P, m, m')
            && Next(m', a) == Next(m, b)
            && (forall s {:trigger Next(m', s)} :: s in S - {b} && s != a ==> Next(m', s) == Next(m, s))
  {
    hide Chain;
    LayoutParts(m, S, F, E, tag, x);
    UnlinkWords(m, ptr, S, F, L, E, tag, x, k, P);
    var u := Unlinked(m, L[k]);
    var m' := u[a + 8 := m[a + 8] + m[b + 8]];
    var c := Next(m, b);
    assert c in S && Placed(m, E, a) && Placed(m, E, b);
    assert L[k] in F;
    JoinSets(m, S, F, E, tag, x, a, b, L[k]);
    assert Resized(m, m', S, E, a, c) by { JoinResized(m, u, m', S, E, a, b); }
    MergeLayout(m, m', S, F, E, tag, x, a, c);
    ListedWithout(F, L, ptr, k, m, E);
    JoinChain(u, m', ptr, S, F, L, E, tag, x, k, a, m);
    KeptWrite(P, m, u, S, F, E, x, a, 8, m[a + 8] + m[b + 8]);
  }

  lemma JoinSets(m: Mem, S: set<int>, F: set<int>, E: int, tag: int, x: int, a: int, b: int, y: int)
    requires Layout(m, S, F, E, tag, x) && a in S && b in S && a != E && b != E && Next(m, a) == b
    requires y in F && x !in F && ((a == x && b == y) || (a == y && b == x))
    ensures Merged(S, a, Next(m, b)) == S - {b} && Outside(F, a, Next(m, b)) == F - {y}
  {
    var c := Next(m, b);
    forall s | s in S ensures s <= a || c <= s || s == b {
      if a < s { Spacing(m, S, E, a, s); }
      if b < s { Spacing(m, S, E, b, s); }
    }
    assert a < b < c;
  }

  lemma JoinResized(m: Mem, u: Mem, m': Mem, S: set<int>, E: int, a: int, b: int)
    requires Tiles(m, S, E) && a in S && b in S && 0 < a && a != E && b != E && Next(m, a) == b && |u| == |m|
    requires forall t :: t in S ==> u[t] == m[t] && u[t + 8] == m[t + 8]
    requires m' == u[a + 8 := m[a + 8] + m[b + 8]]
    ensures Next(m, b) in S && Resized(m, m', S, E, a, Next(m, b))
  {
    var c := Next(m, b);
    assert c in S;
    forall t | t in S && t != a ensures m'[t + 8] == m[t + 8] && m'[t] == m[t] {
      HeadersApart(m, S, E, t, a);
    }
  }

  lemma JoinChain(u: Mem, m': Mem, ptr: int, S: set<int>, F: set<int>, L: seq<int>, E: int, tag: int, x: int,
                  k: nat, a: int, m: Mem)
    requires PageOk(m, ptr, S, F, L, E, tag, x) && k < |L| && |u| == |m| == |m'| && a in S && Placed(m, E, a)
    requires Chain(u, Nodes(Without(L, k), E)) && m' == u[a + 8 := m'[a + 8]]
    ensures Chain(m', Nodes(Without(L, k), E))
  {
    var L' := Without(L, k);
    var N := Nodes(L', E);
    LayoutParts(m, S, F, E, tag, x);
    forall i | 0 <= i < |N| ensures m'[N[i] + 16] == u[N[i] + 16] && m'[N[i] + 24] == u[N[i] + 24] {
      if 0 < i < |N| - 1 { assert N[i] == L'[i - 1] && (L'[i - 1] == L[i - 1] || L'[i - 1] == L[i]); }
      assert N[i] in S;
      if N[i] != a { HeadersApart(m, S, E, N[i], a); }
    }
    SameChain(u, m', N);
  }

  // ---------------------------------------------------------------- giving the block back

  /** Guarding does not mind blocks that become free or that disappear. */
  lemma GuardedLess(P: set<int>, S: set<int>, F: set<int>, E: int, x: int, S': set<int>, F': set<int>, x': int)
    requires Guarded(P, S, F, E, x) && S' <= S && (forall s :: s in S' && s in F' + {x'} ==> s in F + {x})
    ensures Guarded(P, S', F', E, x')
  {
  }

  /** Merging the block being freed with the main block makes the result the main block. */
  lemma MainStep(m: Mem, ptr: int, S: set<int>, F: set<int>, L: seq<int>, E: int, tag: int, x: int,
                 a: int, b: int, P: set<int>)
    requires PageOk(m, ptr, S, F, L, E, tag, x) && Guarded(P, S, F, E, x) && x != CLOSED
    requires (a == x && b == ptr) || (a == ptr && b == x)
    requires a in S && b in S && a != E && b != E && Next(m, a) == b && Next(m, b) !in F
    requires forall f {:trigger Next(m, f)} :: f in F ==> Next(m, f) != a
    ensures Next(m, b) in S && Placed(m, E, Next(m, b)) && Placed(m, E, a)
    ensures var n := m[a + 8] + m[b + 8]; var m' := m[a + 8 := n][Next(m, b) := n]; var F' := F - {ptr} + {a};
            && PageOk(m', a, S - {b}, F', L, E, tag, CLOSED)
            && Guarded(P, S - {b}, F', E, CLOSED) && Kept(P, m, m')
  {
    hide Chain;
    LayoutParts(m, S, F, E, tag, x);
    var c := Next(m, b);
    var n := m[a + 8] + m[b + 8];
    assert c in S && Placed(m, E, a) && Placed(m, E, b) && Placed(m, E, c);
    var u := m[a + 8 := n];
    var m' := u[c := n];
    var S', F1, F' := S - {b}, F - {ptr}, F - {ptr} + {a};
    JoinSets(m, S, F, E, tag, x, a, b, ptr);
    JoinResized(m, m, u, S, E, a, b);
    MergeLayout(m, u, S, F, E, tag, x, a, c);
    HeadersApart(m, S, E, a, c);
    assert Layout(m', S', F1, E, tag, a) by {
      FlagWritten(u, S', F1, E, tag, a, n);
    }
    assert forall f {:trigger Next(m', f)} :: f in F1 ==> Next(m', f) != a by {
      forall f | f in F1 ensures Next(m', f) != a {
        HeadersApart(m, S, E, f, c);
        assert Next(u, f) == Next(m, f);
      }
    }
    CloseLayout(m', S', F1, E, tag, a);
    assert Listed(F', L, a) by { MainListed(F, L, ptr, a, x); }
    MainChain(m, m', ptr, S, F, L, E, tag, x, a, c);
    KeptWrite(P, m, m, S, F, E, x, a, 8, n);
    KeptWrite(P, m, u, S, F, E, x, c, 0, n);
    GuardedLess(P, S, F, E, x, S', F', CLOSED);
  }

  lemma MainListed(F: set<int>, L: seq<int>, ptr: int, a: int, x: int)
    requires Listed(F, L, ptr) && x !in F && (a == x || a == ptr)
    ensures Listed(F - {ptr} + {a}, L, a)
  {
  }

  /** Writing the flag behind the block being freed. */
  lemma FlagWritten(m: Mem, S: set<int>, F: set<int>, E: int, tag: int, x: int, v: int)
    requires Layout(m, S, F, E, tag, x) && x in S && x != E
    ensures Next(m, x) in S && Placed(m, E, Next(m, x))
    ensures Layout(m[Next(m, x) := v], S, F, E, tag, x)
    ensures forall s {:trigger Next(m[Next(m, x) := v], s)} :: s in S ==> Next(m[Next(m, x) := v], s) == Next(m, s)
  {
    var c := Next(m, x);
    assert c in S && Placed(m, E, c);
    var m' := m[c := v];
    forall t | t in S ensures m'[t + 8] == m[t + 8] && (t != c ==> m'[t] == m[t]) {
      if t != c { HeadersApart(m, S, E, t, c); }
    }
    SameLayout(m, m', S, F, E, tag, x);
  }

  lemma MainChain(m: Mem, m': Mem, ptr: int, S: set<int>, F: set<int>, L: seq<int>, E: int, tag: int, x: int, a: int,
      c: int)
    requires PageOk(m, ptr, S, F, L, E, tag, x) && a in S && c in S && Placed(m, E, a) && Placed(m, E, c)
    requires |m'| == |m| && m' == m[a + 8 := m'[a + 8]][c := m'[c]]
    ensures Chain(m', Nodes(L, E))
  {
    LayoutParts(m, S, F, E, tag, x);
    var N := Nodes(L, E);
    NodesPlaced(m, S, F, L, E, tag, x, ptr);
    forall i | 0 <= i < |N| ensures m'[N[i] + 16] == m[N[i] + 16] && m'[N[i] + 24] == m[N[i] + 24] {
      if N[i] != a { HeadersApart(m, S, E, N[i], a); }
      if N[i] != c { HeadersApart(m, S, E, N[i], c); }
    }
    SameChain(m, m', N);
  }

  /** A block without free neighbours goes into the list behind node `k`. */
  lemma ListStep(m: Mem, ptr: int, S: set<int>, F: set<int>, L: seq<int>, E: int, tag: int, x: int, k: nat,
      P: set<int>)
    requires PageOk(m, ptr, S, F, L, E, tag, x) && Guarded(P, S, F, E, x) && x != CLOSED && k <= |L|
    requires Next(m, x) !in F
    requires forall f {:trigger Next(m, f)} :: f in F ==> Next(m, f) != x
    ensures Next(m, x) in S && Placed(m, E, Next(m, x)) && Placed(m, E, x)
    ensures var N := Nodes(L, E); Placed(m, E, N[k]) && Placed(m, E, N[k + 1])
    ensures var N := Nodes(L, E); var m' := Inserted(m[Next(m, x) := m[x + 8]], N[k], x, N[k + 1]);
            && PageOk(m', ptr, S, F + {x}, L[..k] + [x] + L[k..], E, tag, CLOSED)
            && Guarded(P, S, F + {x}, E, CLOSED) && Kept(P, m, m')
  {
    hide Chain;
    LayoutParts(m, S, F, E, tag, x);
    var N := Nodes(L, E);
    var c := Next(m, x);
    NodesPlaced(m, S, F, L, E, tag, x, ptr);
    FlagWritten(m, S, F, E, tag, x, m[x + 8]);
    var u := m[c := m[x + 8]];
    assert u[x + 8] == m[x + 8] by { HeadersApart(m, S, E, x, c); }
    assert Placed(m, E, x);
    MainChain(m, u, ptr, S, F, L, E, tag, x, c, c);
    CloseLayout(u, S, F, E, tag, x);
    forall i | 0 <= i < |N| ensures !Near(x, N[i]) { HeadersApart(m, S, E, x, N[i]); }
    InsertChain(u, N, k, x);
    assert With(N, k, x) == Nodes(L[..k] + [x] + L[k..], E);
    LinkWords(u, S, F + {x}, L, E, tag, x, k);
    ListedWith(F, L, ptr, x, k);
    KeptWrite(P, m, m, S, F, E, x, c, 0, m[x + 8]);
    assert N[k] in F + {0} && N[k + 1] in F + {E};
    KeptWrite(P, m, u, S, F, E, x, x, 24, N[k + 1]);
    var u1 := u[x + 24 := N[k + 1]];
    KeptWrite(P, m, u1, S, F, E, x, x, 16, N[k]);
    var u2 := u1[x + 16 := N[k]];
    KeptWrite(P, m, u2, S, F, E, x, N[k + 1], 16, x);
    KeptWrite(P, m, u2[N[k + 1] + 16 := x], S, F, E, x, N[k], 24, x);
    GuardedLess(P, S, F, E, x, S, F + {x}, CLOSED);
  }

  /** Linking writes nobody's flag or size. */
  lemma LinkWords(m: Mem, S: set<int>, F: set<int>, L: seq<int>, E: int, tag: int, x: int, k: nat)
    requires Layout(m, S, F, E, tag, CLOSED) && x in S && k <= |L| && Placed(m, E, x)
    requires var N := Nodes(L, E); N[k] in S && N[k + 1] in S && Placed(m, E, N[k]) && Placed(m, E, N[k + 1])
    ensures var N := Nodes(L, E); Layout(Inserted(m, N[k], x, N[k + 1]), S, F, E, tag, CLOSED)
  {
    var N := Nodes(L, E);
    LayoutParts(m, S, F, E, tag, CLOSED);
    var m' := Inserted(m, N[k], x, N[k + 1]);
    forall t | t in S ensures m'[t] == m[t] && m'[t + 8] == m[t + 8] {
      if t != x { HeadersApart(m, S, E, t, x); }
      if t != N[k] { HeadersApart(m, S, E, t, N[k]); }
      if t != N[k + 1] { HeadersApart(m, S, E, t, N[k + 1]); }
    }
    SameLayout(m, m', S, F, E, tag, CLOSED);
  }

  lemma ListedWith(F: set<int>, L: seq<int>, ptr: int, x: int, k: nat)
    requires Listed(F, L, ptr) && x !in F && k <= |L|
    ensures Listed(F + {x}, L[..k] + [x] + L[k..], ptr)
  {
    var L' := L[..k] + [x] + L[k..];
    assert L == L[..k] + L[k..];
    forall f | f in F + {x} ensures f == ptr || f in L' {}
    forall i | 0 <= i < |L'| ensures L'[i] in F + {x} {
      assert L'[i] == if i < k then L[i] else if i == k then x else L[i - 1];
    }
  }

  // ---------------------------------------------------------------- allocating

  /** The size word and the memory of every allocated block but `skip`. */
  ghost function Live(m: Mem, S: set<int>, F: set<int>, E: int, skip: int): set<int> {
    set w | 0 <= w < |m| && LiveWord(m, S, F, E, skip, w)
  }

  ghost predicate LiveWord(m: Mem, S: set<int>, F: set<int>, E: int, skip: int, w: int) {
    exists t :: t in S - F - {0, E, skip} && LiveIn(m, t, w)
  }

  predicate LiveIn(m: Mem, t: int, w: int) {
    0 <= t && t + 8 < |m| && t + 8 <= w < Next(m, t)
  }

  predicate NotIn(m: Mem, f: int, w: int) {
    0 <= f && f + 8 < |m| && (w < f || Next(m, f) <= w)
  }

  lemma LiveGuarded(m: Mem, S: set<int>, F: set<int>, E: int, tag: int, x: int)
    requires Layout(m, S, F, E, tag, CLOSED)
    ensures Guarded(Live(m, S, F, E, x), S, F, E, x)
    ensures forall w, f :: w in Live(m, S, F, E, x) && f in F ==> NotIn(m, f, w)
  {
    var P := Live(m, S, F, E, x);
    forall w, s | w in P && s in S
      ensures !(s <= w < s + 8) && (s in F + {x, 0, E} ==> !(s <= w < s + FREE_HEAD))
      ensures s in F ==> NotIn(m, s, w)
    {
      var t :| t in S - F - {0, E, x} && LiveIn(m, t, w);
      if s < t { Spacing(m, S, E, s, t); }
      if t < s { Spacing(m, S, E, t, s); }
      assert Placed(m, E, s);
    }
  }

  /** Header words survive an unlink. */
  lemma UnlinkLayout(m: Mem, S: set<int>, F: set<int>, E: int, tag: int, N: seq<int>, k: nat)
    requires Layout(m, S, F, E, tag, CLOSED) && Chain(m, N) && 0 < k < |N| - 1
    requires forall i :: 0 <= i < |N| ==> N[i] in S
    ensures m[N[k] + 24] == N[k + 1] && m[N[k] + 16] == N[k - 1] && !Near(N[k], N[k + 1])
    ensures Layout(Unlinked(m, N[k]), S, F, E, tag, CLOSED)
  {
    UnlinkChain(m, N, k);
    var m' := Unlinked(m, N[k]);
    forall t | t in S ensures m'[t] == m[t] && m'[t + 8] == m[t + 8] {
      assert Placed(m, E, t);
      if t != N[k - 1] { HeadersApart(m, S, E, t, N[k - 1]); }
      if t != N[k + 1] { HeadersApart(m, S, E, t, N[k + 1]); }
    }
    SameLayout(m, m', S, F, E, tag, CLOSED);
  }

  /** The main block goes to the end of the list and the first block of the list becomes the
      main block. */
  lemma SwapStep(m: Mem, ptr: int, S: set<int>, F: set<int>, L: seq<int>, E: int, tag: int, P: set<int>)
    requires PageOk(m, ptr, S, F, L, E, tag, CLOSED) && Guarded(P, S, F, E, CLOSED) && |L| > 0
    ensures Placed(m, E, ptr) && Placed(m, E, E) && Placed(m, E, L[|L| - 1]) && Placed(m, E, L[0])
    ensures m[24] == L[0] && m[E + 16] == L[|L| - 1]
    ensures var u := Inserted(m, L[|L| - 1], ptr, E);
            && u[24] == L[0] && u[L[0] + 16] == 0 && Placed(m, E, u[L[0] + 24]) && !Near(L[0], u[L[0] + 24])
            && PageOk(Unlinked(u, L[0]), L[0], S, F, L[1..] + [ptr], E, tag, CLOSED)
            && Kept(P, m, Unlinked(u, L[0]))
  {
    hide Chain;
    LayoutParts(m, S, F, E, tag, CLOSED);
    var N := Nodes(L, E);
    var k := |L|;
    NodesPlaced(m, S, F, L, E, tag, CLOSED, ptr);
    assert N[1] == L[0] && N[k] == L[k - 1] && N[k + 1] == E;
    EndsLinked(m, N);
    SwapChain(m, S, F, E, tag, L, ptr);
    SwapListed(F, L, ptr, m, E);
    FreeAreBlocks(m, S, F, E, CLOSED);
    var z := Inserted(m, L[k - 1], ptr, E)[L[0] + 24];
    SwapKept(m, ptr, S, F, E, P, L[k - 1], L[0], z);
  }

  lemma SwapChain(m: Mem, S: set<int>, F: set<int>, E: int, tag: int, L: seq<int>, ptr: int)
    requires PageOk(m, ptr, S, F, L, E, tag, CLOSED) && |L| > 0
    requires Placed(m, E, ptr) && Placed(m, E, E) && Placed(m, E, L[|L| - 1]) && Placed(m, E, L[0])
    ensures var u := Inserted(m, L[|L| - 1], ptr, E); var y := L[0];
            && u[24] == y && u[y + 16] == 0 && u[y + 24] in F && Placed(m, E, u[y + 24]) && !Near(y, u[y + 24])
            && Layout(Unlinked(u, y), S, F, E, tag, CLOSED)
            && Chain(Unlinked(u, y), Nodes(L[1..] + [ptr], E))
  {
    hide Chain;
    var N := Nodes(L, E);
    var k := |L|;
    NodesPlaced(m, S, F, L, E, tag, CLOSED, ptr);
    assert N[1] == L[0] && N[k] == L[k - 1] && N[k + 1] == E;
    forall i | 0 <= i < |N| ensures !Near(ptr, N[i]) {
      assert N[i] != ptr by { if 0 < i < |N| - 1 { assert N[i] == L[i - 1]; } }
      HeadersApart(m, S, E, ptr, N[i]);
    }
    InsertChain(m, N, k, ptr);
    LinkWords(m, S, F, L, E, tag, ptr, k);
    var u := Inserted(m, L[k - 1], ptr, E);
    var N1 := With(N, k, ptr);
    assert N1 == [0] + L + [ptr] + [E];
    UnlinkLayout(u, S, F, E, tag, N1, 1);
    UnlinkChain(u, N1, 1);
    assert Without(N1, 1) == Nodes(L[1..] + [ptr], E);
    EndsLinked(u, N1);
    assert N1[2] == if k > 1 then L[1] else ptr;
  }

  lemma FreeAreBlocks(m: Mem, S: set<int>, F: set<int>, E: int, x: int)
    requires Tiles(m, S, E) && Apart(m, S, F, E, x)
    ensures F <= S
  {
    forall f | f in F ensures f in S {}
  }

  lemma EndsLinked(m: Mem, N: seq<int>)
    requires Chain(m, N) && |N| >= 2
    ensures m[N[0] + 24] == N[1] && m[N[|N| - 1] + 16] == N[|N| - 2]
  {
    assert LinkedAt(m, N, 0) && LinkedAt(m, N, |N| - 2);
  }

  lemma SwapListed(F: set<int>, L: seq<int>, ptr: int, m: Mem, E: int)
    requires Listed(F, L, ptr) && |L| > 0 && Chain(m, Nodes(L, E))
    ensures Listed(F, L[1..] + [ptr], L[0])
  {
    var L' := L[1..] + [ptr];
    var N := Nodes(L, E);
    assert L[0] !in L' by {
      forall i | 0 <= i < |L'| ensures L'[i] != L[0] {
        if i < |L| - 1 { assert !Near(N[1], N[i + 2]); }
      }
    }
    assert L == [L[0]] + L[1..];
  }

  lemma SwapKept(m: Mem, ptr: int, S: set<int>, F: set<int>, E: int, P: set<int>, last: int, y: int, z: int)
    requires Guarded(P, S, F, E, CLOSED) && |m| == E + FREE_HEAD
    requires ptr in F && y in F && last in F && z in F && F <= S && E in S && 0 in S
    requires forall s :: s in S ==> 0 <= s <= E
    requires var u := Inserted(m, last, ptr, E); u[y + 24] == z && u[y + 16] == 0 && !Near(y, z)
    ensures Kept(P, m, Unlinked(Inserted(m, last, ptr, E), y))
  {
    var u := Inserted(m, last, ptr, E);
    var v := Unlinked(u, y);
    forall w | w in P && 0 <= w < |m| ensures v[w] == m[w] {
      assert !(ptr <= w < ptr + FREE_HEAD) && !(E <= w < E + FREE_HEAD) && !(last <= w < last + FREE_HEAD);
      assert !(z <= w < z + FREE_HEAD) && !(0 <= w < 0 + FREE_HEAD);
    }
  }

  /** The front of the main block becomes the new allocation, the rest the main block. */
  lemma CarveStep(m: Mem, ptr: int, S: set<int>, F: set<int>, L: seq<int>, E: int, tag: int, n: int, P: set<int>)
    requires PageOk(m, ptr, S, F, L, E, tag, CLOSED)
    requires 0 <= ptr && ptr + 8 < |m|
    requires FREE_HEAD <= n && n % 8 == 0 && n + FREE_HEAD <= m[ptr + 8]
    requires Guarded(P, S, F, E, CLOSED) && forall w :: w in P ==> NotIn(m, ptr, w)
    ensures Next(m, ptr) in S && Placed(m, E, Next(m, ptr)) && Placed(m, E, ptr)
    ensures var q, rest := ptr + n, m[ptr + 8] - n;
            var m' := m[q := tag][q + 8 := rest][q + rest := rest][q + 16 := ptr][ptr + 8 := n];
            && PageOk(m', q, S + {q}, F - {ptr} + {q}, L, E, tag, CLOSED)
            && q !in S && Kept(P, m, m')
  {
    hide Chain;
    LayoutParts(m, S, F, E, tag, CLOSED);
    var q, rest, c := ptr + n, m[ptr + 8] - n, Next(m, ptr);
    assert c in S && Placed(m, E, ptr) && Placed(m, E, c);
    var m' := m[q := tag][q + 8 := rest][q + rest := rest][q + 16 := ptr][ptr + 8 := n];
    CarveWords(m, m', S, E, ptr, n, tag);
    SplitLayout(m, m', S, F, E, tag, ptr, n);
    FreeAreBlocks(m, S, F, E, CLOSED);
    CarveListed(F, L, ptr, q, S);
    var N := Nodes(L, E);
    NodesPlaced(m, S, F, L, E, tag, CLOSED, ptr);
    forall i | 0 <= i < |N| ensures m'[N[i] + 16] == m[N[i] + 16] && m'[N[i] + 24] == m[N[i] + 24] {
      assert N[i] != ptr by { if 0 < i < |N| - 1 { assert N[i] == L[i - 1]; } }
      if N[i] < ptr { Spacing(m, S, E, N[i], ptr); } else { Spacing(m, S, E, ptr, N[i]); }
      if N[i] != c { HeadersApart(m, S, E, N[i], c); }
    }
    SameChain(m, m', N);
    assert Kept(P, m, m');
  }

  lemma CarveWords(m: Mem, m': Mem, S: set<int>, E: int, p: int, n: int, tag: int)
    requires Tiles(m, S, E) && p in S && p != E && Placed(m, E, p) && Next(m, p) in S
    requires FREE_HEAD <= n && n + FREE_HEAD <= m[p + 8] && Placed(m, E, Next(m, p))
    requires var q, rest := p + n, m[p + 8] - n;
             m' == m[q := tag][q + 8 := rest][q + rest := rest][q + 16 := p][p + 8 := n]
    ensures forall t :: t in S && t != p ==> m'[t + 8] == m[t + 8]
    ensures forall t :: t in S && t != Next(m, p) ==> m'[t] == m[t]
  {
    var c := Next(m, p);
    forall t | t in S && t != p ensures m'[t + 8] == m[t + 8] && (t != c ==> m'[t] == m[t]) {
      if t < p { Spacing(m, S, E, t, p); } else { Spacing(m, S, E, p, t); }
      if t != c { HeadersApart(m, S, E, t, c); }
      assert Placed(m, E, t);
    }
    if p != c { HeadersApart(m, S, E, p, c); }
  }

  lemma CarveListed(F: set<int>, L: seq<int>, ptr: int, q: int, S: set<int>)
    requires Listed(F, L, ptr) && F <= S && q !in S
    ensures Listed(F - {ptr} + {q}, L, q)
  {
  }
}
