/** An xmalloc page: free_pointer, the page part of malloc, deferred frees and their flushing. */
module Page {
  import opened Blocks
  import opened FreeList
  import opened PageState
  import opened Recycle

  /** Blocks handed out and not yet given back to the page. */
  ghost function Allocated(S: set<int>, F: set<int>, E: int): set<int> { S - F - {0, E} }

  lemma NextFlag(m: Mem, S: set<int>, F: set<int>, E: int, tag: int, x: int, n: int)
    requires Layout(m, S, F, E, tag, x) && tag % 2 == 1 && n in S && n != E && n != x
    ensures Next(m, n) in S && Placed(m, E, Next(m, n)) && Placed(m, E, n)
    ensures m[Next(m, n)] % 2 == 0 <==> n in F
  {
    assert Placed(m, E, n) && Next(m, n) in S;
    assert Placed(m, E, Next(m, n));
    EvenGap(n, Next(m, n));
  }

  /** The facts free_pointer reads off the page about the block `x` it is freeing. */
  lemma Around(m: Mem, ptr: int, S: set<int>, F: set<int>, L: seq<int>, E: int, tag: int, x: int)
    requires PageOk(m, ptr, S, F, L, E, tag, x) && x != CLOSED
    ensures Placed(m, E, x) && Next(m, x) in S && Placed(m, E, Next(m, x))
    ensures Placed(m, E, ptr) && Next(m, ptr) in S && ptr in S
  {
    LayoutParts(m, S, F, E, tag, x);
    assert Placed(m, E, x) && Next(m, x) in S;
    assert ptr in S && Placed(m, E, ptr) && Next(m, ptr) in S;
  }

  class Page {
    /** Offset of the end sentinel; the flag of allocated blocks, which names pool and page. */
    const E: int
    const tag: int
    const mem: array<int>
    /** page->ptr, the main block. */
    var ptr: int

    /** Heads of the recycle lists. */
    var pools: seq<int>

    ghost var S: set<int>
    ghost var F: set<int>
    ghost var L: seq<int>
    ghost var R: seq<seq<int>>

    ghost predicate Open(x: int)
      reads `ptr, `S, `F, `L, mem
    {
      mem.Length == E + FREE_HEAD && PageOk(mem[..], ptr, S, F, L, E, tag, x)
    }

    method Unlink(x: int)
      requires 0 <= x && x + FREE_HEAD <= mem.Length
      requires var l, r := mem[x + 16], mem[x + 24];
               0 <= l && l + FREE_HEAD <= mem.Length && 0 <= r && r + FREE_HEAD <= mem.Length && !Near(x, r)
      modifies mem
      ensures mem[..] == Unlinked(old(mem[..]), x)
    {
      mem[mem[x + 24] + 16] := mem[x + 16];
      mem[mem[x + 16] + 24] := mem[x + 24];
    }

    /** Merge the free list block in front of the block being freed with it. */
    method TakePrev(p: int, ghost P: set<int>) returns (q: int)
      requires Open(p) && p != CLOSED && Guarded(P, S, F, E, p)
      requires Placed(mem[..], E, p) && mem[p] % 2 == 0
      requires Placed(mem[..], E, ptr) && Next(mem[..], ptr) != p
      modifies `S, `F, `L, mem
      ensures Open(q) && q != CLOSED && Guarded(P, S, F, E, q) && Kept(P, old(mem[..]), mem[..])
      ensures q in old(F) && S == old(S) - {p} && F == old(F) - {q}
      ensures Placed(mem[..], E, q) && Next(mem[..], q) == old(Next(mem[..], p)) && q <= p
      ensures forall f {:trigger Next(mem[..], f)} :: f in F ==> 0 <= f && f + 8 < mem.Length && Next(mem[..], f) != q
    {
      hide Chain, Layout, Guarded, Kept;
      ghost var m := mem[..];
      assert Layout(m, S, F, E, tag, p) && p in S;
      LayoutParts(m, S, F, E, tag, p);
      ghost var g := FlagTells(m, S, F, E, tag, p, p);
      ghost var k := ListIndex(F, L, ptr, g);
      JoinStep(m, ptr, S, F, L, E, tag, p, k, g, p, P);
      q := p - mem[p];
      mem[q + 8] := mem[q + 8] + mem[p + 8];
      Unlink(q);
      assert mem[..] == Unlinked(m, g)[g + 8 := m[g + 8] + m[p + 8]];
      S, F, L := S - {p}, F - {g}, Without(L, k);
      TakePrevFacts(m, mem[..], old(S), old(F), E, tag, p, q);
    }

    /** Merge the free list block behind the block being freed into it. */
    method TakeNext(p: int, n: int, ghost P: set<int>)
      requires Open(p) && p != CLOSED && Guarded(P, S, F, E, p)
      requires Placed(mem[..], E, p) && n == Next(mem[..], p) && n in F && n != ptr
      modifies `S, `F, `L, mem
      ensures Open(p) && Guarded(P, S, F, E, p) && Kept(P, old(mem[..]), mem[..])
      ensures S == old(S) - {n} && F == old(F) - {n} && mem[p + 8] >= old(mem[p + 8])
      ensures Placed(mem[..], E, p) && Next(mem[..], p) !in F
      ensures forall s {:trigger Next(mem[..], s)} :: s in S && s != p ==>
                0 <= s && s + 8 < mem.Length && Next(mem[..], s) == Next(old(mem[..]), s)
    {
      hide Chain, Layout, Guarded, Kept;
      ghost var m := mem[..];
      assert Layout(m, S, F, E, tag, p) && p in S;
      LayoutParts(m, S, F, E, tag, p);
      assert n in S && n != E && Next(m, n) !in F;
      ghost var k := ListIndex(F, L, ptr, n);
      JoinStep(m, ptr, S, F, L, E, tag, p, k, p, n, P);
      Unlink(n);
      assert mem[p + 8] == m[p + 8] && mem[n + 8] == m[n + 8] by {
        UnlinkWords(m, ptr, S, F, L, E, tag, p, k, P);
      }
      mem[p + 8] := mem[p + 8] + mem[n + 8];
      assert mem[..] == Unlinked(m, n)[p + 8 := m[p + 8] + m[n + 8]];
      S, F, L := S - {n}, F - {n}, Without(L, k);
    }

    /** The block being freed lies in front of the main block. */
    method GiveBefore(p: int, ghost P: set<int>)
      requires Open(p) && p != CLOSED && Guarded(P, S, F, E, p)
      requires Placed(mem[..], E, p) && Next(mem[..], p) == ptr
      requires forall f {:trigger Next(mem[..], f)} ::
          f in F ==> 0 <= f && f + 8 < mem.Length && Next(mem[..], f) != p
      modifies `ptr, `S, `F, mem
      ensures Open(CLOSED) && Kept(P, old(mem[..]), mem[..])
      ensures S == old(S) - {old(ptr)} && F == old(F) - {old(ptr)} + {p}
      ensures Placed(mem[..], E, ptr) && mem[ptr + 8] >= old(mem[p + 8])
    {
      hide Chain, Layout, Guarded, Kept;
      ghost var m := mem[..];
      assert Layout(m, S, F, E, tag, p);
      LayoutParts(m, S, F, E, tag, p);
      Around(m, ptr, S, F, L, E, tag, p);
      MainStep(m, ptr, S, F, L, E, tag, p, p, ptr, P);
      mem[p + 8] := mem[p + 8] + mem[ptr + 8];
      mem[p + mem[p + 8]] := mem[p + 8];
      S, F := S - {ptr}, F - {ptr} + {p};
      ptr := p;
      MainFacts(mem[..], ptr, S, F, L, E, tag);
    }

    /** The block being freed lies behind the main block. */
    method GiveBehind(p: int, ghost P: set<int>)
      requires Open(p) && p != CLOSED && Guarded(P, S, F, E, p)
      requires Placed(mem[..], E, p) && Placed(mem[..], E, ptr) && Next(mem[..], ptr) == p && Next(mem[..], p) !in F
      modifies `S, mem
      ensures Open(CLOSED) && Kept(P, old(mem[..]), mem[..])
      ensures S == old(S) - {p}
      ensures Placed(mem[..], E, ptr) && mem[ptr + 8] >= old(mem[p + 8])
    {
      hide Chain, Layout, Guarded, Kept;
      ghost var m := mem[..];
      assert Layout(m, S, F, E, tag, p);
      LayoutParts(m, S, F, E, tag, p);
      Around(m, ptr, S, F, L, E, tag, p);
      assert forall f {:trigger Next(m, f)} :: f in F ==> Next(m, f) != ptr;
      MainStep(m, ptr, S, F, L, E, tag, p, ptr, p, P);
      assert F - {ptr} + {ptr} == F;
      mem[ptr + 8] := mem[ptr + 8] + mem[p + 8];
      mem[ptr + mem[ptr + 8]] := mem[ptr + 8];
      S := S - {p};
      MainFacts(mem[..], ptr, S, F, L, E, tag);
    }

    /** The block being freed has no free neighbour: largest to the front, others to the end. */
    method GiveToList(p: int, ghost P: set<int>)
      requires Open(p) && p != CLOSED && Guarded(P, S, F, E, p)
      requires Placed(mem[..], E, p) && Next(mem[..], p) !in F
      requires forall f {:trigger Next(mem[..], f)} ::
          f in F ==> 0 <= f && f + 8 < mem.Length && Next(mem[..], f) != p
      requires mem.Length > 24 && Placed(mem[..], E, mem[24])
      modifies `F, `L, mem
      ensures Open(CLOSED) && Kept(P, old(mem[..]), mem[..])
      ensures F == old(F) + {p}
      ensures L == if old(mem[p + 8]) >= old(mem[mem[24] + 8]) then [p] + old(L) else old(L) + [p]
      ensures FirstIsLarge(mem[..], E, old(mem[p + 8])) && FirstIsLarge(mem[..], E, old(mem[mem[24] + 8]))
    {
      hide Chain, Layout, Guarded, Kept;
      ghost var m := mem[..];
      assert Layout(m, S, F, E, tag, p);
      LayoutParts(m, S, F, E, tag, p);
      assert Next(m, p) in S && Placed(m, E, Next(m, p));
      assert p != Next(m, p) && !Near(p, Next(m, p)) by { HeadersApart(m, S, E, p, Next(m, p)); }
      ghost var N := Nodes(L, E);
      NodesPlaced(m, S, F, L, E, tag, p, ptr);
      EndsLinked(m, N);
      mem[p + mem[p + 8]] := mem[p + 8];
      ghost var u := m[Next(m, p) := m[p + 8]];
      assert mem[..] == u;
      EndsAfterFlag(m, u, S, L, E, Next(m, p));
      ghost var k := 0;
      if mem[p + 8] >= mem[mem[24] + 8] {
        ListStep(m, ptr, S, F, L, E, tag, p, 0, P);
        LinkIn(0, p, mem[24]);
      } else {
        k := |L|;
        ListStep(m, ptr, S, F, L, E, tag, p, k, P);
        LinkIn(mem[E + 16], p, E);
      }
      ghost var F', L' := F + {p}, L[..k] + [p] + L[k..];
      FirstAfter(m, mem[..], ptr, S, F, L, E, tag, p, k);
      F, L := F', L';
    }

    method LinkIn(l: int, x: int, r: int)
      requires 0 <= x && x + FREE_HEAD <= mem.Length && 0 <= l && l + FREE_HEAD <= mem.Length
      requires 0 <= r && r + FREE_HEAD <= mem.Length
      modifies mem
      ensures mem[..] == Inserted(old(mem[..]), l, x, r)
    {
      mem[x + 24] := r;
      mem[x + 16] := l;
      mem[r + 16] := x;
      mem[l + 24] := x;
    }

    /** Set the flag behind the block being freed. */
    method MarkBehind(p: int, ghost P: set<int>)
      requires Open(p) && p != CLOSED && Guarded(P, S, F, E, p) && Placed(mem[..], E, p) && p + mem[p + 8] in S
      requires Placed(mem[..], E, p + mem[p + 8])
      modifies mem
      ensures Open(p) && Kept(P, old(mem[..]), mem[..])
      ensures forall s {:trigger Next(mem[..], s)} :: s in S ==>
                0 <= s && s + 8 < mem.Length && Next(mem[..], s) == Next(old(mem[..]), s)
    {
      hide Chain, Layout, Guarded;
      ghost var m := mem[..];
      assert Layout(m, S, F, E, tag, p);
      LayoutParts(m, S, F, E, tag, p);
      FlagWritten(m, S, F, E, tag, p, m[p + 8]);
      KeptWrite(P, m, m, S, F, E, p, Next(m, p), 0, m[p + 8]);
      mem[p + mem[p + 8]] := mem[p + 8];
      MainChain(m, mem[..], ptr, S, F, L, E, tag, p, Next(m, p), Next(m, p));
      forall s | s in S ensures 0 <= s && s + 8 < mem.Length { assert Placed(m, E, s); }
    }

    /** free_pointer: the block and every free block that touches it become one free block. */
    method FreePointer(p: int)
      requires Open(CLOSED) && p in Allocated(S, F, E)
      modifies `ptr, `S, `F, `L, mem
      ensures Open(CLOSED) && Allocated(S, F, E) == old(Allocated(S, F, E)) - {p}
      ensures Kept(old(Live(mem[..], S, F, E, p)), old(mem[..]), mem[..])
      ensures 0 <= p && p + 8 < mem.Length && Offers(mem[..], E, ptr, old(mem[p + 8]))
    {
      hide Chain, Layout, Guarded, Live;
      ghost var m := mem[..];
      ghost var P := Live(m, S, F, E, p);
      assert Layout(m, S, F, E, tag, CLOSED);
      LiveGuarded(m, S, F, E, tag, p);
      OpenLayout(m, S, F, E, tag, p);
      LayoutParts(m, S, F, E, tag, p);
      Around(m, ptr, S, F, L, E, tag, p);
      NotLast(m, S, F, E, tag, p);
      if p + mem[p + 8] == ptr {
        FreeInFront(p, P);
      } else if ptr + mem[ptr + 8] == p {
        FreeRightBehind(p, P);
      } else {
        FreeElsewhere(p, P);
      }
    }

    /** The block right in front of the main block. */
    method FreeInFront(p: int, ghost P: set<int>)
      requires Open(p) && p != CLOSED && Guarded(P, S, F, E, p) && Placed(mem[..], E, p) && Next(mem[..], p) == ptr
      modifies `ptr, `S, `F, `L, mem
      ensures Open(CLOSED) && Kept(P, old(mem[..]), mem[..])
      ensures Allocated(S, F, E) == old(Allocated(S, F, E)) - {p}
      ensures Placed(mem[..], E, ptr) && mem[ptr + 8] >= old(mem[p + 8])
    {
      hide Chain, Layout, Guarded;
      ghost var m := mem[..];
      assert Layout(m, S, F, E, tag, p);
      LayoutParts(m, S, F, E, tag, p);
      Around(m, ptr, S, F, L, E, tag, p);
      ghost var g := FlagTells(m, S, F, E, tag, p, p);
      var a := p;
      if mem[p] % 2 == 0 { a := TakePrev(p, P); }
      GiveBefore(a, P);
    }

    /** The block right behind the main block. */
    method FreeRightBehind(p: int, ghost P: set<int>)
      requires Open(p) && p != CLOSED && Guarded(P, S, F, E, p) && Placed(mem[..], E, p)
      requires Placed(mem[..], E, ptr) && Next(mem[..], ptr) == p && Next(mem[..], p) != E
      modifies `S, `F, `L, mem
      ensures Open(CLOSED) && Kept(P, old(mem[..]), mem[..])
      ensures Allocated(S, F, E) == old(Allocated(S, F, E)) - {p}
      ensures Placed(mem[..], E, ptr) && mem[ptr + 8] >= old(mem[p + 8])
    {
      hide Chain, Layout, Guarded;
      ghost var m := mem[..];
      assert Layout(m, S, F, E, tag, p);
      LayoutParts(m, S, F, E, tag, p);
      Around(m, ptr, S, F, L, E, tag, p);
      var n := p + mem[p + 8];
      NextFlag(m, S, F, E, tag, p, n);
      if mem[n + mem[n + 8]] % 2 == 0 { TakeNext(p, n, P); }
      GiveBehind(p, P);
    }

    /** A block that does not touch the main block. */
    method FreeElsewhere(p: int, ghost P: set<int>)
      requires Open(p) && p != CLOSED && Guarded(P, S, F, E, p) && Placed(mem[..], E, p)
      requires Placed(mem[..], E, ptr) && Next(mem[..], ptr) != p && Next(mem[..], p) !in {E, ptr}
      modifies `S, `F, `L, mem
      ensures Open(CLOSED) && Kept(P, old(mem[..]), mem[..])
      ensures Allocated(S, F, E) == old(Allocated(S, F, E)) - {p}
      ensures FirstIsLarge(mem[..], E, old(mem[p + 8]))
    {
      hide Chain, Layout, Guarded;
      ghost var m := mem[..];
      assert Layout(m, S, F, E, tag, p);
      LayoutParts(m, S, F, E, tag, p);
      Around(m, ptr, S, F, L, E, tag, p);
      ghost var g := FlagTells(m, S, F, E, tag, p, p);
      var a := p;
      if mem[p] % 2 == 0 {
        a := TakePrev(p, P);
        Around(mem[..], ptr, S, F, L, E, tag, a);
        MarkBehind(a, P);
      }
      FreeBetween(a, P);
    }

    /** The last case of free_pointer, after the block in front was taken in. */
    method FreeBetween(a: int, ghost P: set<int>)
      requires Open(a) && a != CLOSED && Guarded(P, S, F, E, a) && Placed(mem[..], E, a)
      requires Next(mem[..], a) != E && Next(mem[..], a) != ptr
      requires forall f {:trigger Next(mem[..], f)} ::
          f in F ==> 0 <= f && f + 8 < mem.Length && Next(mem[..], f) != a
      modifies `S, `F, `L, mem
      ensures Open(CLOSED) && Kept(P, old(mem[..]), mem[..])
      ensures Allocated(S, F, E) == old(Allocated(S, F, E)) - {a}
      ensures FirstIsLarge(mem[..], E, old(mem[a + 8]))
    {
      hide Chain, Layout, Guarded;
      ghost var m := mem[..];
      assert Layout(m, S, F, E, tag, a);
      LayoutParts(m, S, F, E, tag, a);
      Around(m, ptr, S, F, L, E, tag, a);
      var n := a + mem[a + 8];
      NextFlag(m, S, F, E, tag, a, n);
      if mem[n + mem[n + 8]] % 2 == 0 { TakeNext(a, n, P); }
      HeadPlaced(mem[..], ptr, S, F, L, E, tag, a);
      GiveToList(a, P);
    }

    /** malloc_page on memory of `size` bytes: two sentinels with one free block between. */
    constructor (size: int, id: int)
      requires size % 8 == 0 && size >= 4 * FREE_HEAD && id % 2 == 1
      ensures Valid() && Allocated(S, F, E) == {} && fresh(mem)
      ensures E == size - FREE_HEAD && tag == id
    {
      E, tag := size - FREE_HEAD, id;
      var a := new int[size];
      var e := size - FREE_HEAD;
      a[0], a[8] := id, FREE_HEAD;
      a[32], a[40] := id, size - 2 * FREE_HEAD;
      a[e], a[e + 8] := size - 2 * FREE_HEAD, FREE_HEAD;
      a[16], a[24] := CLOSED, e;
      a[e + 16], a[e + 24] := 0, CLOSED;
      mem, ptr := a, FREE_HEAD;
      pools := [NONE, NONE, NONE];
      S, F, L, R := {0, FREE_HEAD, e}, {FREE_HEAD}, [], [[], [], []];
      FreshPage(a[..], e, id);
    }

    /** The part of malloc that works on one locked page: `n` bytes, header included, from the
        front of the main block, or -1 when neither the main block nor the first list block can
        give them and still keep a header. */
    method Alloc(n: nat) returns (p: int)
      requires Open(CLOSED) && FREE_HEAD <= n && n % 8 == 0 && Reserved(n) == n + FREE_HEAD
      modifies `ptr, `S, `F, `L, mem
      ensures Open(CLOSED) && Kept(old(Live(mem[..], S, F, E, CLOSED)), old(mem[..]), mem[..])
      ensures Placed(old(mem[..]), E, old(ptr)) && Placed(old(mem[..]), E, old(mem[24]))
      ensures p == CLOSED <==> old(mem[ptr + 8]) < n + FREE_HEAD && old(mem[mem[24] + 8]) <= n + FREE_HEAD
      ensures p == CLOSED ==> mem[..] == old(mem[..]) && S == old(S) && F == old(F)
      ensures p != CLOSED ==>
                && p !in old(Allocated(S, F, E)) && Allocated(S, F, E) == old(Allocated(S, F, E)) + {p}
                && Placed(mem[..], E, p) && mem[p + 8] == n
                && p == (if old(mem[ptr + 8]) >= n + FREE_HEAD then old(ptr) else old(mem[24]))
    {
      hide Chain, Layout, Guarded, Live;
      ghost var m := mem[..];
      ghost var P := Live(m, S, F, E, CLOSED);
      assert Layout(m, S, F, E, tag, CLOSED);
      LiveGuarded(m, S, F, E, tag, CLOSED);
      MainFacts(m, ptr, S, F, L, E, tag);
      var reserved := Reserved(n);
      if reserved > mem[ptr + 8] {
        if mem[mem[24] + 8] > reserved {
          Refill(P);
        } else {
          return CLOSED;
        }
      }
      p := Carve(n, P);
    }

    /** The main block is too small: put it into the list and take the first one instead. */
    method Refill(ghost P: set<int>)
      requires Open(CLOSED) && Guarded(P, S, F, E, CLOSED) && Placed(mem[..], E, ptr)
      requires Placed(mem[..], E, mem[24]) && mem[mem[24] + 8] > FREE_HEAD
      requires forall w, f :: w in P && f in F ==> NotIn(mem[..], f, w)
      modifies `ptr, `L, mem
      ensures Open(CLOSED) && Kept(P, old(mem[..]), mem[..])
      ensures ptr == old(mem[24]) && Placed(mem[..], E, ptr) && mem[ptr + 8] == old(mem[mem[24] + 8])
      ensures |old(L)| > 0 && L == old(L)[1..] + [old(ptr)]
      ensures forall w :: w in P ==> NotIn(mem[..], ptr, w)
    {
      hide PageOk, Guarded, Inserted, Unlinked;
      ghost var m := mem[..];
      RefillFacts(m, ptr, S, F, L, E, tag, P);
      var last := mem[E + 16];
      LinkIn(last, ptr, E);
      mem[ptr + mem[ptr + 8]] := mem[ptr + 8];
      assert mem[..] == Inserted(m, last, ptr, E);
      L := L[1..] + [ptr];
      ptr := mem[24];
      PopFront();
    }

    /** Take the first node off the list. */
    method PopFront()
      requires mem.Length > 24
      requires var y := mem[24]; 0 < y && y + FREE_HEAD <= mem.Length && !Near(0, y)
      requires var y := mem[24]; var z := mem[y + 24];
               mem[y + 16] == 0 && 0 <= z && z + FREE_HEAD <= mem.Length && !Near(y, z) && !Near(0, z)
      modifies mem
      ensures mem[..] == Unlinked(old(mem[..]), old(mem[24]))
    {
      mem[24] := mem[mem[24] + 24];
      mem[mem[24] + 16] := 0;
    }

    /** Split the main block. */
    method Carve(n: int, ghost P: set<int>) returns (p: int)
      requires Open(CLOSED) && FREE_HEAD <= n && n % 8 == 0 && Placed(mem[..], E, ptr)
          && n + FREE_HEAD <= mem[ptr + 8]
      requires Guarded(P, S, F, E, CLOSED) && forall w :: w in P ==> NotIn(mem[..], ptr, w)
      modifies `ptr, `S, `F, mem
      ensures Open(CLOSED) && Kept(P, old(mem[..]), mem[..])
      ensures p == old(ptr) && p in old(F) && Allocated(S, F, E) == old(Allocated(S, F, E)) + {p}
      ensures Placed(mem[..], E, p) && mem[p + 8] == n
    {
      hide Chain, Layout, Guarded;
      ghost var m := mem[..];
      assert Layout(m, S, F, E, tag, CLOSED);
      LayoutParts(m, S, F, E, tag, CLOSED);
      CarveStep(m, ptr, S, F, L, E, tag, n, P);
      var q := ptr + n;
      mem[q] := tag;
      mem[q + 8] := mem[ptr + 8] - n;
      mem[q + mem[q + 8]] := mem[q + 8];
      mem[q + 16] := ptr;
      p := ptr;
      mem[p + 8] := n;
      S, F := S + {q}, F - {ptr} + {q};
      ptr := q;
    }

    ghost predicate Valid()
      reads this, mem
    {
      Open(CLOSED) && Recycled(mem[..], pools, R, Allocated(S, F, E))
    }

    /** Blocks that belong to a user: allocated, and not waiting in a recycle list. */
    ghost function InUse(): set<int>
      reads this
    {
      Allocated(S, F, E) - Deferred(R)
    }

    /** A user writes a word of a block that belongs to him. */
    method UserWrite(t: int, w: int, v: int)
      requires Valid() && t in InUse() && Placed(mem[..], E, t)
      requires t + WORK_HEAD <= w < t + mem[t + 8] && w < mem.Length
      modifies mem
      ensures Valid() && mem[..] == old(mem[..])[w := v]
    {
      hide PageOk, Live;
      ghost var m := mem[..];
      PayloadWrite(m, ptr, S, F, L, E, tag, t, w, v);
      mem[w] := v;
      assert mem[..] == m[w := v];
      assert Recycled(mem[..], pools, R, Allocated(S, F, E)) by {
        assert Layout(m, S, F, E, tag, CLOSED) by { PageLayout(m, ptr, S, F, L, E, tag); }
        OneWordKept(m, S, F, E, tag, t, w, v);
        RecycledKept(m, mem[..], pools, R, S, F, E, tag, t, Allocated(S, F, E));
      }
    }

    /** Defer the free of a block: push it on list `i`.  The page itself is not looked at. */
    method Defer(p: int, i: nat)
      requires Valid() && p in InUse() && i < POOLS
      modifies `pools, `R, mem
      ensures Valid() && R == old(R)[i := [p] + old(R)[i]]
      ensures Deferred(R) == old(Deferred(R)) + {p} && InUse() == old(InUse()) - {p}
      ensures Kept(old(Live(mem[..], S, F, E, p)), old(mem[..]), mem[..])
    {
      hide PageOk, Live;
      ghost var m := mem[..];
      assert Layout(m, S, F, E, tag, CLOSED) by { PageLayout(m, ptr, S, F, L, E, tag); }
      assert Placed(m, E, p) && p + FREE_HEAD <= Next(m, p) <= E by { AllocatedPlaced(m, S, F, E, tag, p); }
      PayloadWrite(m, ptr, S, F, L, E, tag, p, p + 24, pools[i]);
      OneWordKept(m, S, F, E, tag, p, p + 24, pools[i]);
      mem[p + 24] := pools[i];
      assert mem[..] == m[p + 24 := pools[i]];
      RecycledKept(m, mem[..], pools, R, S, F, E, tag, p, Allocated(S, F, E));
      PushStack(mem[..], pools, R, Allocated(S, F, E), p, i);
      R := R[i := [p] + R[i]];
      pools := pools[i := p];
    }

    /** One turn of a flush loop: pop a block and really free it. */
    method FreeDeferred(i: nat)
      requires Valid() && i < POOLS && pools[i] != NONE
      modifies this, mem
      ensures Valid() && |old(R)[i]| > 0 && R == old(R)[i := old(R)[i][1..]]
      ensures InUse() == old(InUse()) && Allocated(S, F, E) == old(Allocated(S, F, E)) - {old(R)[i][0]}
      ensures forall t :: t in InUse() ==> BlockKept(old(mem[..]), mem[..], t)
    {
      hide PageOk, Live, Kept;
      ghost var m := mem[..];
      ghost var S0, F0 := S, F;
      assert Layout(m, S, F, E, tag, CLOSED) by { PageLayout(m, ptr, S, F, L, E, tag); }
      PopStack(m, pools, R, Allocated(S, F, E), i);
      var p := pools[i];
      R := R[i := R[i][1..]];
      pools := pools[i := mem[p + 24]];
      FreePointer(p);
      RecycledKept(m, mem[..], pools, R, S0, F0, E, tag, p, Allocated(S, F, E));
      forall t | t in InUse() ensures BlockKept(m, mem[..], t) {
        LiveBlockKept(m, mem[..], S0, F0, E, tag, p, t);
      }
    }

    /** flush_page: afterwards nothing is deferred, and users have lost nothing. */
    method Flush()
      requires Valid()
      modifies this, mem
      ensures Valid() && Deferred(R) == {} && InUse() == old(InUse()) == Allocated(S, F, E)
      ensures forall t :: t in InUse() ==> BlockKept(old(mem[..]), mem[..], t)
    {
      hide PageOk, Kept, Stack, Distinct;
      forall t | t in InUse() ensures BlockKept(mem[..], mem[..], t) {
        PageLayout(mem[..], ptr, S, F, L, E, tag);
        AllocatedPlaced(mem[..], S, F, E, tag, t);
      }
      for i := 0 to POOLS
        invariant Valid() && InUse() == old(InUse())
        invariant forall j :: 0 <= j < i ==> R[j] == []
        invariant forall t :: t in InUse() ==> BlockKept(old(mem[..]), mem[..], t)
      {
        DrainList(i);
      }
      assert Deferred(R) == {};
    }

    /** free: with the page's lock the block is freed at once, and the lists stay; without it the
        block is deferred, and if the lock can be had after all, the list with everything on it is
        freed. */
    method Free(p: int, i: nat, locked: bool, lockedLater: bool)
      requires Valid() && p in InUse() && i < POOLS
      modifies this, mem
      ensures Valid() && InUse() == old(InUse()) - {p}
      ensures locked ==> Allocated(S, F, E) == old(Allocated(S, F, E)) - {p} && R == old(R) && pools == old(pools)
      ensures 0 <= p && p + 8 < mem.Length
      ensures locked ==> forall n: nat :: n + FREE_HEAD < old(mem[p + 8]) ==> !NoRoom(mem[..], E, ptr, n)
      ensures !locked && !lockedLater ==>
        Allocated(S, F, E) == old(Allocated(S, F, E)) && R == old(R)[i := [p] + old(R)[i]] && p in Deferred(R)
      ensures !locked && lockedLater ==>
        && Allocated(S, F, E) == old(Allocated(S, F, E)) - {p} - Members(old(R)[i])
        && R == old(R)[i := []] && pools[i] == NONE
      ensures forall t :: t in InUse() ==> BlockKept(old(mem[..]), mem[..], t)
    {
      hide PageOk, Live, Kept, Stack, Distinct;
      ghost var m := mem[..];
      ghost var S0, F0 := S, F;
      assert Layout(m, S, F, E, tag, CLOSED) by { PageLayout(m, ptr, S, F, L, E, tag); }
      if locked {
        FreePointer(p);
        RecycledKept(m, mem[..], pools, R, S0, F0, E, tag, p, Allocated(S, F, E));
        forall n: nat | n + FREE_HEAD < m[p + 8] ensures !NoRoom(mem[..], E, ptr, n) {}
      } else {
        AllocatedPlaced(m, S, F, E, tag, p);
        Defer(p, i);
      }
      forall t | t in InUse() ensures BlockKept(m, mem[..], t) {
        LiveBlockKept(m, mem[..], S0, F0, E, tag, p, t);
      }
      if !locked && lockedLater {
        DrainList(i);
        MembersPushed(p, old(R)[i]);
      }
    }

    /** The drain of free and of flush_page: everything on list `i` is freed, from the top down. */
    method DrainList(i: nat)
      requires Valid() && i < POOLS
      modifies this, mem
      ensures Valid() && InUse() == old(InUse()) && R == old(R)[i := []] && pools[i] == NONE
      ensures Allocated(S, F, E) == old(Allocated(S, F, E)) - Members(old(R)[i])
      ensures forall t :: t in InUse() ==> BlockKept(old(mem[..]), mem[..], t)
    {
      hide PageOk, Kept, Stack, Distinct;
      forall t | t in InUse() ensures BlockKept(mem[..], mem[..], t) {
        PageLayout(mem[..], ptr, S, F, L, E, tag);
        AllocatedPlaced(mem[..], S, F, E, tag, t);
      }
      ghost var j, Q := 0, R[i];
      assert Q[0..] == Q;
      while pools[i] != NONE
        invariant Valid() && InUse() == old(InUse())
        invariant j <= |Q| && R == old(R)[i := Q[j..]]
        invariant Allocated(S, F, E) == old(Allocated(S, F, E)) - Members(Q[..j])
        invariant forall t :: t in InUse() ==> BlockKept(old(mem[..]), mem[..], t)
        decreases |R[i]|
      {
        FreeDeferred(i);
        assert Q[j..][1..] == Q[j + 1..];
        MembersMore(Q, j);
        j := j + 1;
      }
      assert R[i] == [] by { EmptyStack(mem[..], pools[i], R[i]); }
      assert Q[..j] == Q;
    }

    /** On a page with nothing allocated the main block is all there is. */
    lemma EmptyPageServes(n: nat)
      requires Valid() && Allocated(S, F, E) == {} && n + FREE_HEAD <= mem.Length - 2 * FREE_HEAD
      ensures !NoRoom(mem[..], E, ptr, n)
    {
      hide Chain, Recycled;
      LayoutParts(mem[..], S, F, E, tag, CLOSED);
      LeakTest(mem[..], S, F, E, tag, ptr);
      assert S - F == {0, E};
    }

    /** malloc on this page: the address of a block that nobody else has, or -1, and that exactly
        when neither the main block nor the first of the list has the room. The block is at
        least as large as asked for exactly when the size of the request did not wrap. */
    method Malloc(req: nat) returns (address: int)
      requires Valid() && req < WORD && FairlyServed(req)
      modifies `ptr, `S, `F, `L, mem
      ensures Valid()
      ensures address == NONE <==> NoRoom(old(mem[..]), E, old(ptr), Req2Align(req))
      ensures old(Allocated(S, F, E)) == {} && Req2Align(req) + FREE_HEAD <= mem.Length - 2 * FREE_HEAD ==>
                address != NONE
      ensures address == NONE ==> InUse() == old(InUse()) && mem[..] == old(mem[..])
      ensures address != NONE ==> address - WORK_HEAD == Chosen(old(mem[..]), old(ptr), Req2Align(req))
      ensures address != NONE ==>
                var p := address - WORK_HEAD;
                && address % 8 == 0 && p !in old(InUse()) && InUse() == old(InUse()) + {p}
                && Placed(mem[..], E, p) && Next(mem[..], p) <= E
                && (p + WORK_HEAD + req <= Next(mem[..], p) <==> req <= LARGEST)
                && (forall t :: t in old(InUse()) ==> Placed(mem[..], E, t) && Separate(mem[..], p, t))
      ensures forall t :: t in old(InUse()) ==> BlockKept(old(mem[..]), mem[..], t)
    {
      hide Valid, BlockKept, Separate, NoRoom, Chosen;
      RequestIff(req);
      if Allocated(S, F, E) == {} && Req2Align(req) + FREE_HEAD <= mem.Length - 2 * FREE_HEAD {
        EmptyPageServes(Req2Align(req));
      }
      var p := Serve(Req2Align(req));
      if p == CLOSED { return NONE; }
      ServedFacts(mem[..], E, p, Req2Align(req));
      address := p + WORK_HEAD;
    }

    /** A block of `n` bytes, header included, for a user. */
    method Serve(n: nat) returns (p: int)
      requires Valid() && FREE_HEAD <= n && n % 8 == 0 && Reserved(n) == n + FREE_HEAD
      modifies `ptr, `S, `F, `L, mem
      ensures Valid()
      ensures p == CLOSED <==> NoRoom(old(mem[..]), E, old(ptr), n)
      ensures p == CLOSED ==> InUse() == old(InUse()) && mem[..] == old(mem[..])
      ensures p != CLOSED ==> p == Chosen(old(mem[..]), old(ptr), n)
      ensures p != CLOSED ==>
                && p !in old(InUse()) && InUse() == old(InUse()) + {p}
                && Placed(mem[..], E, p) && mem[p + 8] == n && Next(mem[..], p) <= E
                && (forall t :: t in old(InUse()) ==> Placed(mem[..], E, t) && Separate(mem[..], p, t))
      ensures forall t :: t in old(InUse()) ==> BlockKept(old(mem[..]), mem[..], t)
    {
      hide PageOk, Live, Kept, Stack, Distinct;
      ghost var m := mem[..];
      ghost var S0, F0 := S, F;
      assert Layout(m, S, F, E, tag, CLOSED) by { PageLayout(m, ptr, S, F, L, E, tag); }
      p := Alloc(n);
      ghost var A := Allocated(S0, F0, E);
      assert CLOSED !in Deferred(R) by { NoneNotDeferred(m, pools, R, A); }
      RecycledKept(m, mem[..], pools, R, S0, F0, E, tag, CLOSED, Allocated(S, F, E));
      forall t | t in old(InUse()) ensures BlockKept(m, mem[..], t) {
        LiveBlockKept(m, mem[..], S0, F0, E, tag, CLOSED, t);
      }
      if p != CLOSED {
        assert Layout(mem[..], S, F, E, tag, CLOSED) by { PageLayout(mem[..], ptr, S, F, L, E, tag); }
        DeferredAllocated(m, pools, R, A);
        AllocatedPlaced(mem[..], S, F, E, tag, p);
        forall t | t in old(InUse()) ensures Placed(mem[..], E, t) && Separate(mem[..], p, t) {
          AllocatedPlaced(mem[..], S, F, E, tag, t);
          DistinctSeparate(mem[..], S, F, E, tag, p, t);
        }
      }
    }

    /** The test of xmalloc_leak_trace: after a flush it says exactly whether a user still has a
        block. */
    method LooksLeaked() returns (leaked: bool)
      requires Valid() && Deferred(R) == {}
      ensures leaked <==> InUse() != {}
    {
      hide Chain;
      LeakTest(mem[..], S, F, E, tag, ptr);
      MainFacts(mem[..], ptr, S, F, L, E, tag);
      leaked := mem[ptr + 8] != mem.Length - 2 * FREE_HEAD;
      assert Allocated(S, F, E) == {} <==> S - F == {0, E} by {
        LayoutParts(mem[..], S, F, E, tag, CLOSED);
        assert 0 in S && E in S && 0 !in F && E !in F;
      }
    }
  }

  /** 2^64 */
  const WORD := 0x1_0000_0000_0000_0000

  /** __req2align, in 64-bit arithmetic. */
  function Req2Align(req: nat): nat {
    if (req + WORK_HEAD) % WORD < FREE_HEAD then FREE_HEAD
    else (req + WORK_HEAD + 7) % WORD / 8 * 8
  }

  /** The flag of a page: its pool and its own number, and a set lowest bit. */
  function PageTag(pool: nat, page: nat): int { pool * 2048 + page * 2 + 1 }

  /** free reads both numbers back from the trailer. */
  lemma TagNames(pool: nat, page: nat)
    requires pool < 1024 && page < 1024
    ensures PageTag(pool, page) % 2 == 1
    ensures PageTag(pool, page) / 2048 % 1024 == pool && PageTag(pool, page) / 2 % 1024 == page
  {
    assert PageTag(pool, page) / 2048 == pool;
    assert PageTag(pool, page) / 2 == pool * 1024 + page;
  }

  /** The block size is enough for the request exactly when the sum does not wrap. */
  lemma AlignIsEnough(req: nat)
    requires req < WORD
    ensures Req2Align(req) >= req + WORK_HEAD <==> req + WORK_HEAD + 7 < WORD
    ensures req + WORK_HEAD + 7 < WORD ==> FREE_HEAD <= Req2Align(req) && Req2Align(req) % 8 == 0
  {
    var n := req + WORK_HEAD + 7;
    if n < WORD {
      assert n % WORD == n;
      EightTimes(n / 8);
    }
  }

  /** reserved_size: the block and one more header, in 64-bit arithmetic. */
  function Reserved(n: nat): nat { (n + FREE_HEAD) % WORD }

  /** The largest request for which neither sum wraps: 2^64 - 56. */
  const LARGEST := WORD - 56

  /** The block malloc cuts for this request is a block, and its room test is the true one. */
  predicate FairlyServed(req: nat) {
    FREE_HEAD <= Req2Align(req) && Reserved(Req2Align(req)) == Req2Align(req) + FREE_HEAD
  }

  /** malloc serves a request as it should exactly up to 2^64 - 56 bytes. Above, the last sixteen
      requests get a block that is too small, and all others are cut backwards. */
  lemma RequestIff(req: nat)
    requires req < WORD
    ensures FairlyServed(req) && Req2Align(req) >= req + WORK_HEAD <==> req <= LARGEST
    ensures FairlyServed(req) <==> req <= LARGEST || req >= WORD - 16
    ensures FairlyServed(req) ==> Req2Align(req) % 8 == 0
  {
    AlignIsEnough(req);
    var n := req + WORK_HEAD + 7;
    if n < WORD { assert n / 8 * 8 + FREE_HEAD < WORD <==> n < WORD - FREE_HEAD; }
    EightTimes(n % WORD / 8);
  }

  /** Where the rest of the main block begins after `n` bytes were cut, in 64-bit arithmetic. */
  function CutAt(main: nat, n: nat): nat { (main + n) % WORD }

  /** What happens between: the room test passes on every page, and the rest of the main block
      begins on it or up to 32 bytes in front of it. */
  lemma WrapCutsBack(req: nat, main: nat, size: nat)
    requires LARGEST < req < WORD - 16 && FREE_HEAD <= main < WORD && FREE_HEAD <= size
    ensures Reserved(Req2Align(req)) <= size && main - FREE_HEAD <= CutAt(main, Req2Align(req)) <= main
  {
    var n := (req + WORK_HEAD + 7) % WORD / 8 * 8;
    assert Req2Align(req) == n;
    assert n == 0 || WORD - FREE_HEAD <= n < WORD;
    if n != 0 { assert main + n - WORD >= 0; }
  }

  /** On a page: the flag and the size of the rest are written into the block in front of the main
      one, its last 32 bytes, or over the header of the main block itself. */
  lemma WrapHitsNeighbour(m: Mem, S: set<int>, F: set<int>, E: int, tag: int, ptr: int, req: nat) returns (g: int)
    requires Layout(m, S, F, E, tag, CLOSED) && ptr in F && |m| < WORD && LARGEST < req < WORD - 16
    ensures FREE_HEAD <= ptr && 0 <= g < ptr && g in S && Placed(m, E, g) && Next(m, g) == ptr
    ensures g <= CutAt(ptr, Req2Align(req)) <= ptr
  {
    assert Tiles(m, S, E) && Placed(m, E, ptr);
    g := HasPrev(m, S, E, ptr);
    Spacing(m, S, E, 0, ptr);
    assert Placed(m, E, g) && Next(m, g) >= g + FREE_HEAD;
    WrapCutsBack(req, ptr, FREE_HEAD);
  }

  /** The address and the room of a block that was served. */
  lemma ServedFacts(m: Mem, E: int, p: int, n: nat)
    requires Placed(m, E, p) && 0 <= p && p + 8 < |m| && m[p + 8] == n
    ensures (p + WORK_HEAD) % 8 == 0 && Next(m, p) == p + n && p >= 0
  {
  }

  lemma EightTimes(k: int)
    ensures (k * 8) % 8 == 0
  {
  }

  ghost function Members(Q: seq<int>): set<int> { set k | 0 <= k < |Q| :: Q[k] }

  lemma MembersMore(Q: seq<int>, j: nat)
    requires j < |Q|
    ensures Members(Q[..j + 1]) == Members(Q[..j]) + {Q[j]}
  {
    forall x ensures x in Members(Q[..j + 1]) <==> x in Members(Q[..j]) + {Q[j]} {
      if x in Members(Q[..j]) { var k :| 0 <= k < j && Q[..j][k] == x; assert Q[..j + 1][k] == x; }
      if x in Members(Q[..j + 1]) {
        var k :| 0 <= k < j + 1 && Q[..j + 1][k] == x;
        if k < j { assert Q[..j][k] == x; }
      }
      assert Q[..j + 1][j] == Q[j];
    }
  }

  lemma MembersPushed(p: int, Q: seq<int>)
    ensures Members([p] + Q) == {p} + Members(Q)
  {
    forall x ensures x in Members([p] + Q) <==> x in {p} + Members(Q) {
      if x in Members(Q) { var k :| 0 <= k < |Q| && Q[k] == x; assert ([p] + Q)[k + 1] == x; }
      if x in Members([p] + Q) { var k :| 0 <= k < |Q| + 1 && ([p] + Q)[k] == x; if k > 0 { assert Q[k - 1] == x; } }
      assert ([p] + Q)[0] == p;
    }
  }

  /** Where a block of `n` bytes is cut: from the main block if it has the room, else from the first
      of the list. */
  ghost function Chosen(m: Mem, ptr: int, n: nat): int {
    if |m| > 24 && 0 <= ptr && ptr + 8 < |m| then (if m[ptr + 8] >= n + FREE_HEAD then ptr else m[24]) else CLOSED
  }

  /** The main block or the first of the list has at least `n` bytes. */
  ghost predicate Offers(m: Mem, E: int, ptr: int, n: int) {
    (Placed(m, E, ptr) && m[ptr + 8] >= n) || FirstIsLarge(m, E, n)
  }

  /** The first block of the list has at least `n` bytes. */
  ghost predicate FirstIsLarge(m: Mem, E: int, n: int) {
    |m| > 24 && Placed(m, E, m[24]) && m[m[24] + 8] >= n
  }

  /** Neither the main block nor the first of the list can give `n` bytes and keep a header. */
  ghost predicate NoRoom(m: Mem, E: int, ptr: int, n: nat) {
    && Placed(m, E, ptr) && |m| > 24 && Placed(m, E, m[24])
    && m[ptr + 8] < n + FREE_HEAD && m[m[24] + 8] <= n + FREE_HEAD
  }

  /** The size and all memory of block `t` are as before. */
  ghost predicate BlockKept(m: Mem, m': Mem, t: int) {
    && |m'| == |m| && 0 <= t && t + 8 < |m|
    && forall w :: LiveIn(m, t, w) && w < |m| ==> m'[w] == m[w]
  }

  predicate Separate(m: Mem, s: int, t: int)
    requires 0 <= s && s + 8 < |m| && 0 <= t && t + 8 < |m|
  {
    Next(m, s) <= t || Next(m, t) <= s
  }

  lemma PageLayout(m: Mem, ptr: int, S: set<int>, F: set<int>, L: seq<int>, E: int, tag: int)
    requires PageOk(m, ptr, S, F, L, E, tag, CLOSED)
    ensures Layout(m, S, F, E, tag, CLOSED)
  {
  }

  /** A block keeps its trailer, which names pool and page, for as long as it is allocated. */
  lemma AllocatedPlaced(m: Mem, S: set<int>, F: set<int>, E: int, tag: int, t: int)
    requires Layout(m, S, F, E, tag, CLOSED) && t in Allocated(S, F, E)
    ensures Placed(m, E, t) && t + FREE_HEAD <= Next(m, t) <= E && m[Next(m, t)] == tag
  {
    LayoutParts(m, S, F, E, tag, CLOSED);
    assert Placed(m, E, t) && Next(m, t) in S;
    assert Placed(m, E, Next(m, t));
  }

  lemma DistinctSeparate(m: Mem, S: set<int>, F: set<int>, E: int, tag: int, s: int, t: int)
    requires Layout(m, S, F, E, tag, CLOSED) && s in S && t in S && s != t && Placed(m, E, s) && Placed(m, E, t)
    ensures Separate(m, s, t)
  {
    LayoutParts(m, S, F, E, tag, CLOSED);
    if s < t { Spacing(m, S, E, s, t); } else { Spacing(m, S, E, t, s); }
  }

  lemma OneWordKept(m: Mem, S: set<int>, F: set<int>, E: int, tag: int, t: int, w: int, v: int)
    requires Layout(m, S, F, E, tag, CLOSED) && t in Allocated(S, F, E) && Placed(m, E, t)
    requires t + 8 <= w < Next(m, t) && w < |m|
    ensures Kept(Live(m, S, F, E, t), m, m[w := v])
  {
    LayoutParts(m, S, F, E, tag, CLOSED);
    forall u | u in Live(m, S, F, E, t) ensures u != w {
      var s :| s in S - F - {0, E, t} && LiveIn(m, s, u);
      if s < t { Spacing(m, S, E, s, t); } else { Spacing(m, S, E, t, s); }
    }
  }

  lemma LiveBlockKept(m: Mem, m': Mem, S: set<int>, F: set<int>, E: int, tag: int, p: int, t: int)
    requires Layout(m, S, F, E, tag, CLOSED) && t in Allocated(S, F, E) && t != p
    requires Kept(Live(m, S, F, E, p), m, m')
    ensures BlockKept(m, m', t)
  {
    AllocatedPlaced(m, S, F, E, tag, t);
    forall w | LiveIn(m, t, w) && w < |m| ensures m'[w] == m[w] {
      assert w in Live(m, S, F, E, p);
    }
  }

  lemma EmptyStack(m: Mem, head: int, Q: seq<int>)
    requires Stack(m, head, Q) && head == NONE
    ensures Q == []
  {
    assert |Q| > 0 ==> StackAt(m, Q, 0);
  }

  lemma DeferredAllocated(m: Mem, pools: seq<int>, R: seq<seq<int>>, A: set<int>)
    requires Recycled(m, pools, R, A)
    ensures Deferred(R) <= A
  {
    forall i, k | 0 <= i < |R| && 0 <= k < |R[i]| ensures R[i][k] in A {}
  }

  lemma NoneNotDeferred(m: Mem, pools: seq<int>, R: seq<seq<int>>, A: set<int>)
    requires Recycled(m, pools, R, A)
    ensures CLOSED !in Deferred(R)
  {
    forall i, k | 0 <= i < |R| && 0 <= k < |R[i]| ensures R[i][k] != CLOSED {
      assert Stack(m, pools[i], R[i]);
      assert StackAt(m, R[i], k);
    }
  }

  lemma TakePrevFacts(m: Mem, m': Mem, S: set<int>, F: set<int>, E: int, tag: int, p: int, q: int)
    requires Layout(m, S, F, E, tag, p) && p in S && q in F && |m'| == |m| && Placed(m, E, q) && Placed(m, E, p)
        && Next(m, q) == p
    requires forall s {:trigger Next(m', s)} ::
        s in S - {p} && s != q ==> 0 <= s && s + 8 < |m| && Next(m', s) == Next(m, s)
    ensures forall f {:trigger Next(m', f)} :: f in F - {q} ==> 0 <= f && f + 8 < |m| && Next(m', f) != q
  {
    LayoutParts(m, S, F, E, tag, p);
    forall f | f in F - {q} ensures 0 <= f && f + 8 < |m| && Next(m', f) != q {
      assert Placed(m, E, f);
      assert Next(m, f) !in F;
    }
  }

  /** Writing a flag leaves the ends of the list where they were. */
  lemma EndsAfterFlag(m: Mem, u: Mem, S: set<int>, L: seq<int>, E: int, c: int)
    requires Tiles(m, S, E) && c in S && Placed(m, E, c) && |u| == |m| && u == m[c := u[c]]
    ensures u[24] == m[24] && u[E + 16] == m[E + 16]
  {
    assert Placed(m, E, 0) && Placed(m, E, E);
    if c != 0 { HeadersApart(m, S, E, 0, c); }
    if c != E { HeadersApart(m, S, E, E, c); }
  }

  /** An allocated block is never the last one, so that free may look two blocks ahead. */
  lemma NotLast(m: Mem, S: set<int>, F: set<int>, E: int, tag: int, p: int)
    requires Layout(m, S, F, E, tag, CLOSED) && p in Allocated(S, F, E)
    ensures Placed(m, E, p) && Next(m, p) in S && Next(m, p) != E && Next(m, Next(m, p)) in S
  {
    LayoutParts(m, S, F, E, tag, CLOSED);
    assert Placed(m, E, p) && Next(m, p) in S;
    assert Placed(m, E, Next(m, p));
  }

  lemma FreshPage(m: Mem, e: int, tag: int)
    requires |m| == e + FREE_HEAD && e % 8 == 0 && e >= 3 * FREE_HEAD && tag % 2 == 1
    requires m[0] == tag && m[8] == FREE_HEAD && m[32] == tag && m[40] == e - FREE_HEAD
    requires m[e] == e - FREE_HEAD && m[e + 8] == FREE_HEAD && m[24] == e && m[e + 16] == 0
    ensures PageOk(m, FREE_HEAD, {0, FREE_HEAD, e}, {FREE_HEAD}, [], e, tag, CLOSED)
  {
    var S := {0, FREE_HEAD, e};
    assert Next(m, 0) == FREE_HEAD && Next(m, FREE_HEAD) == e;
    assert Tiles(m, S, e);
    assert Nodes([], e) == [0, e];
  }

  lemma MainFacts(m: Mem, ptr: int, S: set<int>, F: set<int>, L: seq<int>, E: int, tag: int)
    requires PageOk(m, ptr, S, F, L, E, tag, CLOSED)
    ensures Placed(m, E, ptr) && ptr in F && Placed(m, E, m[24]) && m[24] == if |L| > 0 then L[0] else E
    ensures |L| == 0 ==> m[m[24] + 8] == FREE_HEAD
  {
    LayoutParts(m, S, F, E, tag, CLOSED);
    NodesPlaced(m, S, F, L, E, tag, CLOSED, ptr);
    EndsLinked(m, Nodes(L, E));
  }

  lemma InsertedSize(m: Mem, l: int, x: int, r: int, s: int)
    requires 0 <= x && x + FREE_HEAD <= |m| && 0 <= l && l + FREE_HEAD <= |m| && 0 <= r && r + FREE_HEAD <= |m|
    requires 0 <= s && s + FREE_HEAD <= |m|
    requires (s == l || !Near(s, l)) && (s == x || !Near(s, x)) && (s == r || !Near(s, r))
    ensures Inserted(m, l, x, r)[s + 8] == m[s + 8]
  {
  }

  /** Putting a block into the list leaves the size of every block alone. */
  lemma ListedSize(m: Mem, ptr: int, S: set<int>, F: set<int>, L: seq<int>, E: int, tag: int, x: int, k: nat, s: int)
    requires PageOk(m, ptr, S, F, L, E, tag, x) && x != CLOSED && k <= |L| && s in S
    requires var N := Nodes(L, E); Placed(m, E, N[k]) && Placed(m, E, N[k + 1]) && Placed(m, E, x)
    requires Next(m, x) in S && Placed(m, E, Next(m, x))
    ensures var N := Nodes(L, E);
      Placed(m, E, s) && Inserted(m[Next(m, x) := m[x + 8]], N[k], x, N[k + 1])[s + 8] == m[s + 8]
  {
    hide Chain;
    LayoutParts(m, S, F, E, tag, x);
    var N := Nodes(L, E);
    NodesPlaced(m, S, F, L, E, tag, x, ptr);
    assert Placed(m, E, s);
    forall y | y in S && y != s ensures !Near(s, y) { HeadersApart(m, S, E, s, y); }
    InsertedSize(m[Next(m, x) := m[x + 8]], N[k], x, N[k + 1], s);
  }

  /** The larger of the block and of the first one comes first. */
  lemma FirstAfter(m: Mem, m': Mem, ptr: int, S: set<int>, F: set<int>, L: seq<int>, E: int, tag: int, x: int, k: nat)
    requires PageOk(m, ptr, S, F, L, E, tag, x) && x != CLOSED && k in {0, |L|} && Placed(m, E, x)
    requires Next(m, x) in S && Placed(m, E, Next(m, x)) && Placed(m, E, m[24]) && m[24] == Nodes(L, E)[1]
    requires var N := Nodes(L, E);
      Placed(m, E, N[k]) && Placed(m, E, N[k + 1]) && m' == Inserted(m[Next(m, x) := m[x + 8]], N[k], x, N[k + 1])
    requires PageOk(m', ptr, S, F + {x}, L[..k] + [x] + L[k..], E, tag, CLOSED)
    requires if k == 0 then |L| > 0 ==> m[x + 8] >= m[m[24] + 8] else m[x + 8] <= m[m[24] + 8]
    ensures FirstIsLarge(m', E, m[x + 8]) && FirstIsLarge(m', E, m[m[24] + 8])
  {
    hide Chain, Layout, Inserted;
    var L' := L[..k] + [x] + L[k..];
    MainFacts(m', ptr, S, F + {x}, L', E, tag);
    FirstFacts(m, ptr, S, F, L, E, tag, x);
    var first := L'[0];
    assert first == if k == 0 then x else L[0];
    ListedSize(m, ptr, S, F, L, E, tag, x, k, first);
  }

  lemma FirstFacts(m: Mem, ptr: int, S: set<int>, F: set<int>, L: seq<int>, E: int, tag: int, x: int)
    requires PageOk(m, ptr, S, F, L, E, tag, x) && x != CLOSED && Placed(m, E, x)
    ensures x in S && (forall i :: 0 <= i < |L| ==> L[i] in S) && Placed(m, E, E) && m[E + 8] == FREE_HEAD
    ensures m[x + 8] >= FREE_HEAD
  {
    hide Chain;
    LayoutParts(m, S, F, E, tag, x);
    NodesPlaced(m, S, F, L, E, tag, x, ptr);
    forall i | 0 <= i < |L| ensures L[i] in S { assert Nodes(L, E)[i + 1] == L[i]; }
    assert Next(m, x) >= x + FREE_HEAD;
  }

  lemma HeadPlaced(m: Mem, ptr: int, S: set<int>, F: set<int>, L: seq<int>, E: int, tag: int, x: int)
    requires PageOk(m, ptr, S, F, L, E, tag, x) && x != CLOSED
    ensures |m| > 24 && Placed(m, E, m[24])
  {
    hide Layout;
    NodesPlaced(m, S, F, L, E, tag, x, ptr);
    EndsLinked(m, Nodes(L, E));
  }

  /** Everything Refill reads and writes, in order. */
  lemma RefillFacts(m: Mem, ptr: int, S: set<int>, F: set<int>, L: seq<int>, E: int, tag: int, P: set<int>)
    requires PageOk(m, ptr, S, F, L, E, tag, CLOSED) && Guarded(P, S, F, E, CLOSED)
    requires |m| == E + FREE_HEAD && Placed(m, E, m[24]) && m[m[24] + 8] > FREE_HEAD
    requires forall w, f :: w in P && f in F ==> NotIn(m, f, w)
    ensures |L| > 0 && Placed(m, E, ptr) && Placed(m, E, m[E + 16]) && 0 <= E
    ensures var y, u := m[24], Inserted(m, m[E + 16], ptr, E); var z := u[y + 24];
            && y == L[0] && u[24] == y && u[y + 16] == 0 && 0 < y
            && !Near(0, y) && !Near(y, z) && !Near(0, z) && Placed(m, E, z)
            && u[ptr + 8] == m[ptr + 8] && 0 <= Next(m, ptr) < |m| && u[Next(m, ptr)] == m[ptr + 8]
            && var v := Unlinked(u, y);
            && PageOk(v, y, S, F, L[1..] + [ptr], E, tag, CLOSED) && Kept(P, m, v)
            && v[y + 8] == m[y + 8]
            && forall w :: w in P ==> NotIn(v, y, w)
  {
    hide Chain, Layout, Guarded;
    assert Layout(m, S, F, E, tag, CLOSED);
    LayoutParts(m, S, F, E, tag, CLOSED);
    MainFacts(m, ptr, S, F, L, E, tag);
    SwapStep(m, ptr, S, F, L, E, tag, P);
    SwapChain(m, S, F, E, tag, L, ptr);
    SwapSizes(m, ptr, S, F, L, E, tag);
    var y, u := L[0], Inserted(m, L[|L| - 1], ptr, E);
    var z := u[y + 24];
    assert y in F && z in F;
    HeadersApart(m, S, E, 0, y);
    HeadersApart(m, S, E, 0, z);
    assert Next(m, ptr) in S && Placed(m, E, Next(m, ptr));
    forall w | w in P ensures w < y || y + m[y + 8] <= w { assert NotIn(m, y, w); }
  }

  /** Relinking writes no size and no flag. */
  lemma SwapSizes(m: Mem, ptr: int, S: set<int>, F: set<int>, L: seq<int>, E: int, tag: int)
    requires PageOk(m, ptr, S, F, L, E, tag, CLOSED) && |L| > 0
    requires Placed(m, E, ptr) && Placed(m, E, L[|L| - 1])
    ensures var u := Inserted(m, L[|L| - 1], ptr, E);
            forall t :: t in S ==> 0 <= t && t + FREE_HEAD <= |m| && u[t] == m[t] && u[t + 8] == m[t + 8]
  {
    LayoutParts(m, S, F, E, tag, CLOSED);
    var l := L[|L| - 1];
    assert l in F;
    var u := Inserted(m, l, ptr, E);
    forall t | t in S ensures 0 <= t && t + FREE_HEAD <= |m| && u[t] == m[t] && u[t + 8] == m[t + 8] {
      assert Placed(m, E, t);
      if t != ptr { HeadersApart(m, S, E, t, ptr); }
      if t != l { HeadersApart(m, S, E, t, l); }
      if t != E { HeadersApart(m, S, E, t, E); }
    }
  }
}
