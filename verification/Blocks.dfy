/** The block structure of an xmalloc page, as facts about its memory.

    Memory is indexed by byte offset from the start of the page; the machine word at an aligned
    offset `a` is `m[a]`.  A block at `s` has its flag word at s, its size at s + 8 and, while it
    is free or in a list, its prev and next links at s + 16 and s + 24; the words from s + 16 on
    belong to the user while it is allocated.  `S` is the set of block starts, `F` the free
    ones, `E` the offset of the end sentinel. */
module Blocks {

  /** __free_pointer_size and __work_pointer_size without back traces. */
  const FREE_HEAD := 32
  const WORK_HEAD := 16

  type Mem = seq<int>

  /** The end of a block, which is where the next one starts. */
  function Next(m: Mem, s: int): int
    requires 0 <= s && s + 8 < |m|
  {
    s + m[s + 8]
  }

  /** Offsets that can be block starts. */
  predicate Placed(m: Mem, E: int, s: int) {
    0 <= s <= E && s % 8 == 0 && |m| == E + FREE_HEAD
  }

  /** The blocks lie one behind the other from the head sentinel at 0 to the end sentinel. */
  ghost predicate Tiles(m: Mem, S: set<int>, E: int) {
    && 0 in S && E in S
    && (forall s :: s in S ==> Placed(m, E, s))
    && (forall s {:trigger Next(m, s)} :: s in S && s != E ==> Next(m, s) >= s + FREE_HEAD && Next(m, s) in S)
    && (forall s, t {:trigger Next(m, s), t in S} :: s in S && t in S && s < t ==> Next(m, s) <= t)
    && m[8] == FREE_HEAD && m[E + 8] == FREE_HEAD
  }

  /** No block is being freed. */
  const CLOSED := -1

  /** The flag word behind a block says whether it is free, and then how large it is; only the
      word behind the block `x` that is just being freed may be out of date. */
  ghost predicate Flags(m: Mem, S: set<int>, F: set<int>, E: int, tag: int, x: int)
    requires Tiles(m, S, E)
  {
    forall s {:trigger Next(m, s)} :: s in S && s != E && s != x ==>
      m[Next(m, s)] == if s in F then m[s + 8] else tag
  }

  /** No two free blocks touch, and the block in front of the end sentinel is free. */
  ghost predicate Apart(m: Mem, S: set<int>, F: set<int>, E: int, x: int)
    requires Tiles(m, S, E)
  {
    && (forall f :: f in F ==> f in S && f != 0 && f != E && f != x)
    && (forall f {:trigger Next(m, f)} :: f in F ==> Next(m, f) !in F)
    && (forall s {:trigger Next(m, s)} :: s in S && s != E && s != x && Next(m, s) == E ==> s in F)
  }

  ghost predicate Layout(m: Mem, S: set<int>, F: set<int>, E: int, tag: int, x: int) {
    Tiles(m, S, E) && Flags(m, S, F, E, tag, x) && Apart(m, S, F, E, x)
  }

  // ---------------------------------------------------------------- tiling

  lemma Spacing(m: Mem, S: set<int>, E: int, s: int, t: int)
    requires Tiles(m, S, E) && s in S && t in S && s < t
    ensures s + FREE_HEAD <= t && Next(m, s) <= t
  {
  }

  lemma {:induction false} LargestBelow(S: set<int>, p: int, lo: int) returns (q: int)
    requires lo in S && lo < p
    ensures q in S && q < p && forall s :: s in S && s < p ==> s <= q
    decreases p - lo
  {
    if above :| above in S && lo < above < p {
      q := LargestBelow(S, p, above);
    } else {
      q := lo;
    }
  }

  /** Every block but the first has exactly one block in front of it. */
  lemma HasPrev(m: Mem, S: set<int>, E: int, p: int) returns (q: int)
    requires Tiles(m, S, E) && p in S && p != 0
    ensures q in S && q < p && q != E && Next(m, q) == p
    ensures forall s {:trigger Next(m, s)} :: s in S && s != E && Next(m, s) == p ==> s == q
  {
    q := LargestBelow(S, p, 0);
    assert Placed(m, E, p) && Placed(m, E, q);
    assert Next(m, q) in S;
    forall s | s in S && s != E && Next(m, s) == p ensures s == q {
      if s < q { Spacing(m, S, E, s, q); }
      assert m[s + 8] >= FREE_HEAD;
    }
  }

  /** The blocks cover the page: every offset lies in exactly one of them. */
  lemma Covered(m: Mem, S: set<int>, E: int, w: int) returns (s: int)
    requires Tiles(m, S, E) && 0 <= w < |m|
    ensures s in S && s <= w < Next(m, s)
    ensures forall t :: t in S && t <= w < Next(m, t) ==> t == s
  {
    s := LargestBelow(S, w + 1, 0);
    if s != E { assert Next(m, s) in S; }
    forall t | t in S && t <= w < Next(m, t) ensures t == s {
      if t < s { Spacing(m, S, E, t, s); }
    }
  }

  // ---------------------------------------------------------------- merging

  /** Block starts that remain when everything from `a` up to `c` becomes one block. */
  function Merged(S: set<int>, a: int, c: int): set<int> {
    set s | s in S && (s <= a || c <= s)
  }

  function Outside(F: set<int>, a: int, c: int): set<int> {
    set s | s in F && (s < a || c <= s)
  }

  /** Only the size of `a` changed, as far as the remaining blocks can tell. */
  ghost predicate Resized(m: Mem, m': Mem, S: set<int>, E: int, a: int, c: int)
    requires Tiles(m, S, E)
  {
    && a in S && c in S && 0 < a < c && |m'| == |m| && m'[a + 8] == c - a
    && (forall t :: t in S && (t < a || c <= t) ==> m'[t + 8] == m[t + 8])
    && (forall t :: t in S && (t <= a || c < t) ==> m'[t] == m[t])
  }

  /** One remaining block. */
  lemma MergeNext(m: Mem, m': Mem, S: set<int>, E: int, a: int, c: int, s: int)
    requires Tiles(m, S, E) && Resized(m, m', S, E, a, c) && s in Merged(S, a, c)
    ensures Placed(m', E, s) && Next(m', s) == if s == a then c else Next(m, s)
    ensures s != E ==> Next(m', s) >= s + FREE_HEAD && Next(m', s) in Merged(S, a, c)
  {
    assert Placed(m, E, s) && Placed(m, E, a) && Placed(m, E, c);
    Spacing(m, S, E, a, c);
    if s < a { Spacing(m, S, E, s, a); }
    if s != E { assert Next(m, s) in S; }
  }

  lemma MergeOrder(m: Mem, m': Mem, S: set<int>, E: int, a: int, c: int, s: int, t: int)
    requires Tiles(m, S, E) && Resized(m, m', S, E, a, c) && s in Merged(S, a, c) && t in Merged(S, a, c) && s < t
    ensures Placed(m', E, s) && Next(m', s) <= t
  {
    MergeNext(m, m', S, E, a, c, s);
    Spacing(m, S, E, s, t);
  }

  lemma MergeEnds(m: Mem, m': Mem, S: set<int>, E: int, a: int, c: int)
    requires Tiles(m, S, E) && Resized(m, m', S, E, a, c)
    ensures 0 in Merged(S, a, c) && E in Merged(S, a, c) && m'[8] == FREE_HEAD && m'[E + 8] == FREE_HEAD
  {
    assert Placed(m, E, c);
  }

  lemma MergeTiles(m: Mem, m': Mem, S: set<int>, E: int, a: int, c: int)
    requires Tiles(m, S, E) && Resized(m, m', S, E, a, c)
    ensures Tiles(m', Merged(S, a, c), E)
    ensures forall s {:trigger Next(m', s)} :: s in Merged(S, a, c) && s != a ==> Next(m', s) == Next(m, s)
  {
    hide Resized, Merged;
    var S' := Merged(S, a, c);
    MergeEnds(m, m', S, E, a, c);
    forall s | s in S'
      ensures Placed(m', E, s) && (s != a ==> Next(m', s) == Next(m, s))
      ensures s != E ==> Next(m', s) >= s + FREE_HEAD && Next(m', s) in S'
    {
      MergeNext(m, m', S, E, a, c, s);
    }
    forall s, t | s in S' && t in S' && s < t ensures Placed(m', E, s) && Next(m', s) <= t {
      MergeOrder(m, m', S, E, a, c, s, t);
    }
  }

  /** Merging [a, c), which contains the block being freed, leaves `a` as the one being freed. */
  lemma MergeLayout(m: Mem, m': Mem, S: set<int>, F: set<int>, E: int, tag: int, x: int, a: int, c: int)
    requires Layout(m, S, F, E, tag, x) && Resized(m, m', S, E, a, c) && a <= x < c
    ensures Layout(m', Merged(S, a, c), Outside(F, a, c), E, tag, a)
    ensures forall s {:trigger Next(m', s)} :: s in Merged(S, a, c) && s != a ==> Next(m', s) == Next(m, s)
  {
    MergeTiles(m, m', S, E, a, c);
    var S', F' := Merged(S, a, c), Outside(F, a, c);
    assert Placed(m, E, c);
    forall s | s in S' && s != E && s != a ensures m'[Next(m', s)] == if s in F' then m'[s + 8] else tag {
      assert Placed(m, E, s);
      if s < a { Spacing(m, S, E, s, a); }
      assert Next(m, s) in S && Next(m', s) == Next(m, s) > s;
    }
    forall f | f in F' ensures Next(m', f) !in F' {
      assert f in F && Next(m', f) == Next(m, f);
    }
    forall s | s in S' && s != E && s != a && Next(m', s) == E ensures s in F' {
      assert Next(m', s) == Next(m, s);
    }
  }

  /** The block being freed becomes free: its neighbours are not, and the word behind it says
      how large it is. */
  lemma CloseLayout(m: Mem, S: set<int>, F: set<int>, E: int, tag: int, a: int)
    requires Layout(m, S, F, E, tag, a) && a in S && a != 0 && a != E
    requires m[Next(m, a)] == m[a + 8] && Next(m, a) !in F
    requires forall f {:trigger Next(m, f)} :: f in F ==> Next(m, f) != a
    ensures Layout(m, S, F + {a}, E, tag, CLOSED)
  {
    forall f | f in F + {a} ensures Next(m, f) !in F + {a} {
      if f == a { assert Next(m, a) >= a + FREE_HEAD; }
    }
    forall s | s in S && s != E ensures Next(m, s) == Next(m, a) ==> s == a {
      if s < a { Spacing(m, S, E, s, a); assert Next(m, a) > a; }
      if a < s { Spacing(m, S, E, a, s); assert Next(m, s) > s; }
    }
  }

  lemma OpenLayout(m: Mem, S: set<int>, F: set<int>, E: int, tag: int, p: int)
    requires Layout(m, S, F, E, tag, CLOSED) && p !in F
    ensures Layout(m, S, F, E, tag, p)
  {
  }

  /** Writing words that are nobody's flag or size does not change the layout; nor does writing
      the flag behind the block being freed. */
  lemma SameLayout(m: Mem, m': Mem, S: set<int>, F: set<int>, E: int, tag: int, x: int)
    requires Layout(m, S, F, E, tag, x) && |m'| == |m|
    requires forall t :: t in S ==> m'[t + 8] == m[t + 8]
    requires forall t :: t in S && m'[t] != m[t] ==> x in S && x != E && t == Next(m, x)
    ensures Layout(m', S, F, E, tag, x)
  {
    forall s | s in S ensures Next(m', s) == Next(m, s) { assert Placed(m, E, s); }
    forall s | s in S && s != E && s != x ensures m'[Next(m', s)] == m[Next(m, s)] {
      assert Next(m, s) in S;
      if x in S && x != E && Next(m, s) == Next(m, x) {
        if s < x { Spacing(m, S, E, s, x); } else { Spacing(m, S, E, x, s); }
      }
    }
  }

  // ---------------------------------------------------------------- splitting

  /** Cutting `n` bytes off the front of the free block `p` allocates them; the rest stays
      free. */
  lemma SplitLayout(m: Mem, m': Mem, S: set<int>, F: set<int>, E: int, tag: int, p: int, n: int)
    requires Layout(m, S, F, E, tag, CLOSED) && p in F && |m'| == |m|
    requires FREE_HEAD <= n && n % 8 == 0 && n + FREE_HEAD <= m[p + 8] && Next(m, p) <= E
    requires m'[p + 8] == n && m'[p + n] == tag && m'[p + n + 8] == m[p + 8] - n
    requires m'[Next(m, p)] == m[p + 8] - n
    requires forall t :: t in S && t != p ==> m'[t + 8] == m[t + 8]
    requires forall t :: t in S && t != Next(m, p) ==> m'[t] == m[t]
    ensures Layout(m', S + {p + n}, F - {p} + {p + n}, E, tag, CLOSED)
    ensures p + n !in S
  {
    var q, c := p + n, Next(m, p);
    var S', F' := S + {q}, F - {p} + {q};
    assert Placed(m, E, p) && Placed(m, E, c) && c in S;
    if q in S { Spacing(m, S, E, p, q); }
    SplitTiles(m, m', S, E, p, n);
    SplitFlags(m, m', S, F, E, tag, p, n);
    forall f | f in F' ensures Next(m', f) !in F' {
      if f != q {
        assert f in F && Next(m', f) == Next(m, f) && Next(m, f) in S;
      }
    }
    forall s | s in S' && s != E && Next(m', s) == E ensures s in F' {
      if s != p && s != q { assert Next(m', s) == Next(m, s); }
    }
  }

  lemma SplitFlags(m: Mem, m': Mem, S: set<int>, F: set<int>, E: int, tag: int, p: int, n: int)
    requires Tiles(m, S, E) && Flags(m, S, F, E, tag, CLOSED) && p in S && p != E && |m'| == |m|
    requires FREE_HEAD <= n && n + FREE_HEAD <= m[p + 8] && Next(m, p) <= E && p + n !in S + F
    requires m'[p + 8] == n && m'[p + n] == tag && m'[p + n + 8] == m[p + 8] - n
    requires m'[Next(m, p)] == m[p + 8] - n
    requires forall t :: t in S && t != p ==> m'[t + 8] == m[t + 8]
    requires forall t :: t in S && t != Next(m, p) ==> m'[t] == m[t]
    requires Tiles(m', S + {p + n}, E)
    ensures Flags(m', S + {p + n}, F - {p} + {p + n}, E, tag, CLOSED)
  {
    var q := p + n;
    forall s | s in S + {q} && s != E
      ensures m'[Next(m', s)] == if s in F - {p} + {q} then m'[s + 8] else tag
    {
      if s != p && s != q {
        assert Placed(m, E, s);
        assert Next(m, s) in S && Next(m', s) == Next(m, s);
        if s < p { Spacing(m, S, E, s, p); } else { Spacing(m, S, E, p, s); }
      }
    }
  }

  /** One block after the cut. */
  lemma SplitNext(m: Mem, m': Mem, S: set<int>, E: int, p: int, n: int, s: int)
    requires Tiles(m, S, E) && p in S && p != E && |m'| == |m| && p + n !in S
    requires FREE_HEAD <= n && n % 8 == 0 && n + FREE_HEAD <= m[p + 8] && Next(m, p) <= E
    requires m'[p + 8] == n && m'[p + n + 8] == m[p + 8] - n
    requires forall t :: t in S && t != p ==> m'[t + 8] == m[t + 8]
    requires s in S + {p + n}
    ensures Placed(m', E, s)
    ensures Next(m', s) == if s == p then p + n else if s == p + n then Next(m, p) else Next(m, s)
    ensures s != E ==> Next(m', s) >= s + FREE_HEAD && Next(m', s) in S + {p + n}
  {
    assert Placed(m, E, p) && Next(m, p) in S;
    if s != p + n {
      assert Placed(m, E, s);
      if s != E { assert Next(m, s) in S; }
    }
  }

  lemma SplitTiles(m: Mem, m': Mem, S: set<int>, E: int, p: int, n: int)
    requires Tiles(m, S, E) && p in S && p != 0 && p != E && |m'| == |m| && p + n !in S
    requires FREE_HEAD <= n && n % 8 == 0 && n + FREE_HEAD <= m[p + 8] && Next(m, p) <= E
    requires m'[p + 8] == n && m'[p + n + 8] == m[p + 8] - n
    requires forall t :: t in S && t != p ==> m'[t + 8] == m[t + 8]
    ensures Tiles(m', S + {p + n}, E)
  {
    var S' := S + {p + n};
    assert Placed(m, E, p) && Placed(m, E, E);
    forall s | s in S'
      ensures Placed(m', E, s)
      ensures s != E ==> Next(m', s) >= s + FREE_HEAD && Next(m', s) in S'
    {
      SplitNext(m, m', S, E, p, n, s);
    }
    forall s, t | s in S' && t in S' && s < t ensures Placed(m', E, s) && Next(m', s) <= t {
      SplitOrder(m, m', S, E, p, n, s, t);
    }
  }

  lemma SplitOrder(m: Mem, m': Mem, S: set<int>, E: int, p: int, n: int, s: int, t: int)
    requires Tiles(m, S, E) && p in S && p != E && |m'| == |m|
    requires FREE_HEAD <= n && n + FREE_HEAD <= m[p + 8] && Next(m, p) <= E
    requires m'[p + 8] == n && m'[p + n + 8] == m[p + 8] - n
    requires forall t :: t in S && t != p ==> m'[t + 8] == m[t + 8]
    requires n % 8 == 0 && p + n !in S
    requires s in S + {p + n} && t in S + {p + n} && s < t
    ensures Placed(m', E, s) && Next(m', s) <= t
  {
    var q := p + n;
    SplitNext(m, m', S, E, p, n, s);
    if s == q {
      Spacing(m, S, E, p, t);
    } else if t == q {
      if s < p { Spacing(m, S, E, s, p); }
      if p < s { Spacing(m, S, E, p, s); }
    } else {
      Spacing(m, S, E, s, t);
    }
  }

  // ---------------------------------------------------------------- the leak test

  /** With every deferred free done, the main block has the size of the whole page exactly when
      nothing is allocated. */
  lemma LeakTest(m: Mem, S: set<int>, F: set<int>, E: int, tag: int, ptr: int)
    requires Layout(m, S, F, E, tag, CLOSED) && ptr in F
    ensures m[ptr + 8] == |m| - 2 * FREE_HEAD <==> S - F == {0, E}
  {
    assert Placed(m, E, ptr) && Placed(m, E, 0);
    Spacing(m, S, E, 0, ptr);
    assert Next(m, ptr) in S;
    assert Placed(m, E, Next(m, ptr));
    if m[ptr + 8] == |m| - 2 * FREE_HEAD {
      forall s | s in S && s !in F ensures s in {0, E} {
        assert Placed(m, E, s);
        if 0 < s {
          Spacing(m, S, E, 0, s);
          if s < ptr { Spacing(m, S, E, s, ptr); }
          if ptr < s { Spacing(m, S, E, ptr, s); }
        }
      }
      assert S - F == {0, E};
    }
    if S - F == {0, E} {
      // the first block behind the head is free, so the one behind it is not
      var first := Next(m, 0);
      assert first in S && first == FREE_HEAD;
      assert first !in S - F;
      var second := Next(m, first);
      assert second in S && second !in F;
      assert second in S - F;
      assert Placed(m, E, first);
      if first < ptr { Spacing(m, S, E, first, ptr); }
      if ptr < first { Spacing(m, S, E, ptr, first); }
    }
  }
}
