/** The nibble tree of src/xnet/xtree.h, described path by path: which nodes there are, and what
    each of them must hold. */
module TrieShape {
  import opened Common

  type Ptr = int
  const NULL: Ptr := 0
  type Val = int

  /** A node is named by the nibbles that lead to it. */
  type Path = seq<int>

  /** struct xnode with its sixteen child pointers */
  datatype Cell = Cell(child: seq<Ptr>, mapping: Val, parent: Ptr, route: int, branch: int, leaves: int, index: int)

  type Heap = map<Ptr, Cell>

  predicate Nibbles(p: Path) { forall i :: 0 <= i < |p| ==> 0 <= p[i] < 16 }

  /** The path of a key: the upper, then the lower half of every byte. */
  function Nib(key: seq<Byte>): (p: Path)
    ensures |p| == 2 * |key| && Nibbles(p)
  {
    if key == [] then [] else [key[0] / 16, key[0] % 16] + Nib(key[1..])
  }

  lemma {:induction false} NibAt(key: seq<Byte>, i: nat)
    requires i < |key|
    ensures Nib(key)[2 * i] == key[i] / 16 && Nib(key)[2 * i + 1] == key[i] % 16
  {
    if i > 0 { NibAt(key[1..], i - 1); }
  }

  /** Different keys have different paths. */
  lemma {:induction false} NibInjective(a: seq<Byte>, b: seq<Byte>)
    ensures Nib(a) == Nib(b) <==> a == b
  {
    if Nib(a) == Nib(b) {
      assert |a| == |b|;
      forall i | 0 <= i < |a| ensures a[i] == b[i] {
        NibAt(a, i);
        NibAt(b, i);
      }
    }
  }

  predicate Prefix(p: Path, q: Path) { |p| <= |q| && q[..|p|] == p }

  /** What the tree is a record of: the value last stored under each path, and the additions that
      no deletion has taken back, each under a stamp of its own with the path it went along. */
  datatype Book = Book(vals: map<Path, Val>, held: map<nat, Path>)

  /** The additions that go through `p`, and those that end one nibble below it. */
  ghost function Through(book: Book, p: Path): set<nat> {
    set s | s in book.held && Prefix(p, book.held[s])
  }

  ghost function Twigs(book: Book, p: Path): set<nat> {
    set s | s in book.held && book.held[s] != [] && book.held[s][..|book.held[s]| - 1] == p
  }

  /** The nibbles that continue `p` inside a set of paths. */
  ghost function Fans(paths: set<Path>, p: Path): set<int> {
    set i | 0 <= i < 16 && p + [i] in paths
  }

  function Get(vals: map<Path, Val>, p: Path): Val { if p in vals then vals[p] else 0 }

  /** The values after `v` was stored under `k`; storing the null pointer stores nothing. */
  function Put(vals: map<Path, Val>, k: Path, v: Val): map<Path, Val> {
    if v == 0 then vals - {k} else vals[k := v]
  }

  function Ask(at: map<Path, Ptr>, p: Path): Ptr { if p in at then at[p] else NULL }

  /** The prefixes of `k` from length `lo` to length `d`, which are counted once more than the
      additions demand while `k` is being added or removed. */
  predicate Extra(k: Path, lo: int, d: int, p: Path) { Prefix(p, k) && lo <= |p| <= d }

  /** What the node at path `p` holds. */
  ghost predicate NodeOk(h: Heap, at: map<Path, Ptr>, book: Book, k: Path, lo: int, d: int, p: Path) {
    && p in at && at[p] in h && at[p] != NULL && |h[at[p]].child| == 16
    && (forall i :: 0 <= i < 16 ==> h[at[p]].child[i] == Ask(at, p + [i]))
    && h[at[p]].mapping == Get(book.vals, p)
    && h[at[p]].route == |Through(book, p)| + (if Extra(k, lo, d, p) then 1 else 0)
    && h[at[p]].branch == |Fans(at.Keys, p)|
    && h[at[p]].leaves == |Twigs(book, p)| % 0x10000
    && (p != [] ==> h[at[p]].parent == Ask(at, p[..|p| - 1]) && h[at[p]].index == p[|p| - 1])
    && (p == [] ==> h[at[p]].parent == NULL)
  }

  /** There is a node for a path exactly when it is the root, or an addition goes through it, or
      it is one of the prefixes in progress. */
  ghost predicate Wanted(book: Book, k: Path, d: int, p: Path) {
    p == [] || Through(book, p) != {} || (Prefix(p, k) && |p| <= d)
  }

  ghost predicate Domain(at: map<Path, Ptr>, book: Book, k: Path, d: int) {
    forall p :: p in at <==> Wanted(book, k, d, p)
  }

  ghost predicate Injective(at: map<Path, Ptr>) {
    forall p, q :: p in at && q in at && at[p] == at[q] ==> p == q
  }

  /** The whole tree, while `k` is being added or removed. */
  ghost predicate Mid(h: Heap, at: map<Path, Ptr>, book: Book, k: Path, lo: int, d: int) {
    && Injective(at)
    && (forall p :: p in at ==> NodeOk(h, at, book, k, lo, d, p))
    && Domain(at, book, k, d)
    && Backed(book)
  }

  /** Every value belongs to an addition. */
  ghost predicate Backed(book: Book) {
    && (forall s :: s in book.held ==> Nibbles(book.held[s]) && book.held[s] != [])
    && (forall q :: q in book.vals ==> book.vals[q] != 0 && exists s :: s in book.held && book.held[s] == q)
  }

  /** And between two calls. */
  ghost predicate Inv(h: Heap, at: map<Path, Ptr>, book: Book) { Mid(h, at, book, [], 1, 0) }

  // ---------------------------------------------------------------- counting

  function Added(book: Book, s: nat, k: Path, v: Val): Book {
    Book(Put(book.vals, k, v), book.held[s := k])
  }

  function TakenBack(book: Book, s: nat, k: Path): Book { Book(book.vals - {k}, book.held - {s}) }

  /** A set that differs by one element. */
  lemma OneMore(a: set<nat>, b: set<nat>, s: nat, more: bool)
    requires s !in a && forall t :: t in b <==> t in a || (more && t == s)
    ensures |b| == |a| + (if more then 1 else 0) && (b != {} <==> a != {} || more)
  {
    if more { assert b == a + {s}; } else { assert b == a; }
  }

  lemma ThroughAdd(book: Book, s: nat, k: Path, v: Val, p: Path)
    requires s !in book.held && k != []
    ensures |Through(Added(book, s, k, v), p)| == |Through(book, p)| + if Prefix(p, k) then 1 else 0
    ensures Through(Added(book, s, k, v), p) != {} <==> Through(book, p) != {} || Prefix(p, k)
    ensures |Twigs(Added(book, s, k, v), p)| == |Twigs(book, p)| + if p == k[..|k| - 1] then 1 else 0
  {
    hide Prefix, Put;
    OneMore(Through(book, p), Through(Added(book, s, k, v), p), s, Prefix(p, k));
    OneMore(Twigs(book, p), Twigs(Added(book, s, k, v), p), s, p == k[..|k| - 1]);
  }

  lemma ThroughDrop(book: Book, s: nat, k: Path, p: Path)
    requires s in book.held && book.held[s] == k && k != []
    ensures |Through(TakenBack(book, s, k), p)| == |Through(book, p)| - if Prefix(p, k) then 1 else 0
    ensures Through(book, p) != {} <==> Through(TakenBack(book, s, k), p) != {} || Prefix(p, k)
    ensures |Twigs(TakenBack(book, s, k), p)| == |Twigs(book, p)| - if p == k[..|k| - 1] then 1 else 0
  {
    hide Prefix;
    OneMore(Through(TakenBack(book, s, k), p), Through(book, p), s, Prefix(p, k));
    OneMore(Twigs(TakenBack(book, s, k), p), Twigs(book, p), s, p == k[..|k| - 1]);
  }

  lemma BackedAdd(book: Book, s: nat, k: Path, v: Val)
    requires Backed(book) && s !in book.held && k != [] && Nibbles(k)
    ensures Backed(Added(book, s, k, v))
  {
    hide Nibbles;
    var book' := Added(book, s, k, v);
    forall q | q in book'.vals ensures exists t :: t in book'.held && book'.held[t] == q {
      if q == k {
        assert s in book'.held;
      } else {
        var t :| t in book.held && book.held[t] == q;
        assert t in book'.held;
      }
    }
  }

  lemma BackedDrop(book: Book, s: nat, k: Path)
    requires Backed(book) && s in book.held && book.held[s] == k
    ensures Backed(TakenBack(book, s, k))
  {
    hide Nibbles;
    var book' := TakenBack(book, s, k);
    forall q | q in book'.vals ensures exists t :: t in book'.held && book'.held[t] == q {
      var t :| t in book.held && book.held[t] == q;
      assert t in book'.held;
    }
  }

  lemma FansAdd(paths: set<Path>, q: Path, i: int, p: Path)
    requires 0 <= i < 16 && q + [i] !in paths
    ensures |Fans(paths + {q + [i]}, p)| == |Fans(paths, p)| + if p == q then 1 else 0
  {
    var a, b := Fans(paths, p), Fans(paths + {q + [i]}, p);
    forall j | 0 <= j < 16 ensures j in b <==> j in a || (p == q && j == i) { SplitLast(p, j, q, i); }
    if p == q { assert b == a + {i}; } else { assert b == a; }
  }

  lemma FansDrop(paths: set<Path>, q: Path, i: int, p: Path)
    requires 0 <= i < 16 && q + [i] in paths
    ensures |Fans(paths - {q + [i]}, p)| == |Fans(paths, p)| - if p == q then 1 else 0
  {
    FansAdd(paths - {q + [i]}, q, i, p);
    assert paths - {q + [i]} + {q + [i]} == paths;
  }

  lemma SplitLast(p: Path, i: int, q: Path, j: int)
    ensures p + [i] == q + [j] <==> p == q && i == j
  {
    assert (p + [i])[..|p|] == p && (q + [j])[..|q|] == q;
    assert |p| == |q| ==> (p + [i])[|p|] == i && (q + [j])[|q|] == j;
  }

  // ---------------------------------------------------------------- prefixes

  lemma Extend(k: Path, d: nat, p: Path)
    requires d < |k|
    ensures Prefix(p, k) && |p| == d + 1 <==> p == k[..d + 1]
    ensures k[..d + 1] == k[..d] + [k[d]] && |k[..d + 1]| == d + 1 && k[..d + 1][..d] == k[..d]
        && k[..d + 1][d] == k[d]
  {}

  lemma ExtraGrows(k: Path, lo: int, d: nat, p: Path)
    requires d < |k| && lo <= d + 1
    ensures Extra(k, lo, d + 1, p) <==> Extra(k, lo, d, p) || p == k[..d + 1]
    ensures !Extra(k, lo, d, k[..d + 1])
  {
    Extend(k, d, p);
  }

  lemma WantedGrows(book: Book, k: Path, d: nat, p: Path)
    requires d < |k|
    ensures Wanted(book, k, d + 1, p) <==> Wanted(book, k, d, p) || p == k[..d + 1]
    ensures Wanted(book, k, d, k[..d + 1]) <==> Through(book, k[..d + 1]) != {}
  {
    Extend(k, d, p);
  }

  /** What goes through a path goes through the shorter ones. */
  lemma ThroughShrinks(book: Book, p: Path, i: int)
    ensures Through(book, p + [i]) <= Through(book, p)
    ensures Twigs(book, p) <= Through(book, p)
  {
    forall s | s in Through(book, p + [i]) ensures s in Through(book, p) {
      var q := book.held[s];
      assert q[..|p|] == (p + [i])[..|p|] == p;
    }
  }

  /** A value has an addition that goes there. */
  lemma ValueHeld(book: Book, q: Path)
    requires Backed(book) && q in book.vals
    ensures Through(book, q) != {} && q != [] && Nibbles(q) && book.vals[q] != 0
  {
    hide Nibbles;
    var s :| s in book.held && book.held[s] == q;
    assert s in Through(book, q);
  }

  /** The paths there are nodes for are closed under prefixes. */
  lemma WantedClosed(book: Book, k: Path, d: int, p: Path)
    requires Wanted(book, k, d, p) && p != []
    ensures Wanted(book, k, d, p[..|p| - 1])
  {
    var u, i := p[..|p| - 1], p[|p| - 1];
    assert p == u + [i];
    ThroughShrinks(book, u, i);
    if Prefix(p, k) { assert k[..|u|] == p[..|u|]; }
  }

  // ---------------------------------------------------------------- adding, one level down

  /** calloc */
  function Blank(): (c: seq<Ptr>)
    ensures |c| == 16 && forall i :: 0 <= i < 16 ==> c[i] == NULL
  {
    [NULL, NULL, NULL, NULL, NULL, NULL, NULL, NULL, NULL, NULL, NULL, NULL, NULL, NULL, NULL, NULL]
  }

  /** The node of the next nibble is there: it is counted. */
  lemma StepExisting(h: Heap, at: map<Path, Ptr>, book: Book, k: Path, d: nat)
    requires Mid(h, at, book, k, 0, d) && d < |k| && k[..d] in at && k[..d + 1] in at
    ensures at[k[..d + 1]] in h
    ensures var q := at[k[..d + 1]];
      Mid(h[q := h[q].(route := h[q].route + 1, index := k[d], parent := at[k[..d]])], at, book, k, 0, d + 1)
  {
    hide NodeOk, Wanted, Through, Twigs, Fans, Injective, Domain, Nibbles;
    MidFacts(h, at, book, k, 0, d);
    var e := k[..d + 1];
    var q := at[e];
    var h' := h[q := h[q].(route := h[q].route + 1, index := k[d], parent := at[k[..d]])];
    forall p | p in at ensures NodeOk(h', at, book, k, 0, d + 1, p) { CountedNode(h, at, book, k, d, p); }
    DomainGrows(at, book, k, d, q);
    assert at[e := q] == at;
  }

  lemma CountedNode(h: Heap, at: map<Path, Ptr>, book: Book, k: Path, d: nat, p: Path)
    requires NodeOk(h, at, book, k, 0, d, p) && Injective(at) && d < |k| && k[..d] in at && k[..d + 1] in at
        && at[k[..d + 1]] in h
    ensures var q := at[k[..d + 1]];
      NodeOk(h[q := h[q].(route := h[q].route + 1, index := k[d], parent := at[k[..d]])], at, book, k, 0, d + 1, p)
  {
    Extend(k, d, p);
    ExtraGrows(k, 0, d, p);
    hide Through, Twigs, Fans, Prefix, Extra;
  }

  /** It is not: it is created below its parent. */
  lemma StepNew(h: Heap, at: map<Path, Ptr>, book: Book, k: Path, d: nat, x: Ptr)
    requires Mid(h, at, book, k, 0, d) && d < |k| && Nibbles(k) && k[..d] in at && k[..d + 1] !in at
    requires x !in h && x != NULL
    ensures at[k[..d]] in h && |h[at[k[..d]]].child| == 16
    ensures var p := at[k[..d]];
      Mid(h[p := h[p].(child := h[p].child[k[d] := x], branch := h[p].branch + 1)][x := Cell(Blank(), 0, p, 1, 0, 0,
          k[d])],
          at[k[..d + 1] := x], book, k, 0, d + 1)
  {
    hide NodeOk, Wanted, Through, Twigs, Fans, Blank, Nibbles, Injective;
    NibbleAt(k, d);
    MidFacts(h, at, book, k, 0, d);
    var f, e, i := k[..d], k[..d + 1], k[d];
    var p := at[f];
    var h' := h[p := h[p].(child := h[p].child[i := x], branch := h[p].branch + 1)][x := Cell(Blank(), 0, p, 1, 0, 0,
        i)];
    var at' := at[e := x];
    WantedGrows(book, k, d, e);
    NewNode(h', at, book, k, d, x);
    forall r | r in at' ensures NodeOk(h', at', book, k, 0, d + 1, r) {
      if r != e { OldNode(h, h', at, book, k, d, x, r); }
    }
    DomainGrows(at, book, k, d, x);
    InjectiveGrows(h, at, e, x);
  }

  lemma DomainGrows(at: map<Path, Ptr>, book: Book, k: Path, d: nat, x: Ptr)
    requires d < |k| && Domain(at, book, k, d)
    ensures Domain(at[k[..d + 1] := x], book, k, d + 1)
  {
    hide Wanted, Through;
    var at' := at[k[..d + 1] := x];
    forall p ensures p in at' <==> Wanted(book, k, d + 1, p) { WantedGrows(book, k, d, p); }
  }

  lemma InjectiveGrows(h: Heap, at: map<Path, Ptr>, e: Path, x: Ptr)
    requires Injective(at) && x !in h && forall r :: r in at ==> at[r] in h
    ensures Injective(at[e := x])
  {}

  lemma NibbleAt(k: Path, d: nat)
    requires Nibbles(k) && d < |k|
    ensures 0 <= k[d] < 16
  {}

  lemma RootWanted(book: Book, k: Path, d: int)
    ensures Wanted(book, k, d, [])
  {}

  lemma MidFacts(h: Heap, at: map<Path, Ptr>, book: Book, k: Path, lo: int, d: int)
    requires Mid(h, at, book, k, lo, d)
    ensures forall r :: r in at ==> at[r] in h && at[r] != NULL && |h[at[r]].child| == 16
    ensures forall r :: r in at && r != [] ==> r[..|r| - 1] in at
    ensures [] in at
  {
    forall r | r in at ensures at[r] in h && at[r] != NULL && |h[at[r]].child| == 16 {
        assert NodeOk(h, at, book, k, lo, d, r); }
    hide Wanted;
    RootWanted(book, k, d);
    forall r | r in at && r != [] ensures r[..|r| - 1] in at { WantedClosed(book, k, d, r); }
  }

  lemma NewNode(h': Heap, at: map<Path, Ptr>, book: Book, k: Path, d: nat, x: Ptr)
    requires d < |k| && k[..d] in at && k[..d + 1] !in at && Through(book, k[..d + 1]) == {} && x != NULL
    requires x in h' && h'[x] == Cell(Blank(), 0, at[k[..d]], 1, 0, 0, k[d])
    requires Domain(at, book, k, d) && Backed(book)
    ensures NodeOk(h', at[k[..d + 1] := x], book, k, 0, d + 1, k[..d + 1])
  {
    var e := k[..d + 1];
    var at' := at[e := x];
    Extend(k, d, e);
    ExtraGrows(k, 0, d, e);
    forall i | 0 <= i < 16 ensures e + [i] !in at' { ThroughShrinks(book, e, i); }
    ThroughShrinks(book, e, 0);
    if e in book.vals { ValueHeld(book, e); }
    assert Fans(at'.Keys, e) == {} && Twigs(book, e) == {};
  }

  lemma OldNode(h: Heap, h': Heap, at: map<Path, Ptr>, book: Book, k: Path, d: nat, x: Ptr, r: Path)
    requires NodeOk(h, at, book, k, 0, d, r) && Injective(at) && d < |k| && Nibbles(k) && k[..d] in at
        && k[..d + 1] !in at && x !in h
    requires r != [] ==> r[..|r| - 1] in at
    requires at[k[..d]] in h && |h[at[k[..d]]].child| == 16
    requires var p := at[k[..d]];
      h' == h[p := h[p].(child := h[p].child[k[d] := x], branch := h[p].branch + 1)][x := Cell(Blank(), 0, p, 1, 0, 0,
          k[d])]
    ensures NodeOk(h', at[k[..d + 1] := x], book, k, 0, d + 1, r)
  {
    hide Through, Twigs, Fans, Nibbles;
    NibbleAt(k, d);
    var f, e, i := k[..d], k[..d + 1], k[d];
    var at' := at[e := x];
    Extend(k, d, r);
    ExtraGrows(k, 0, d, r);
    FansAdd(at.Keys, f, i, r);
    assert at'.Keys == at.Keys + {e};
    forall j | 0 <= j < 16 ensures Ask(at', r + [j]) == if r == f && j == i then x else Ask(at, r + [j]) {
        SplitLast(r, j, f, i); }
  }

  // ---------------------------------------------------------------- adding, first and last writes

  /** The root is counted first. */
  lemma StartAdd(h: Heap, at: map<Path, Ptr>, book: Book, k: Path)
    requires Inv(h, at, book)
    ensures [] in at && at[[]] in h
    ensures Mid(h[at[[]] := h[at[[]]].(route := h[at[[]]].route + 1)], at, book, k, 0, 0)
  {
    hide NodeOk, Wanted, Through, Twigs, Fans, Injective, Domain, Nibbles;
    MidFacts(h, at, book, [], 1, 0);
    var h' := h[at[[]] := h[at[[]]].(route := h[at[[]]].route + 1)];
    forall p | p in at ensures NodeOk(h', at, book, k, 0, 0, p) { RootCounted(h, at, book, k, p); }
    DomainAtRoot(at, book, [], k);
  }

  lemma RootCounted(h: Heap, at: map<Path, Ptr>, book: Book, k: Path, p: Path)
    requires NodeOk(h, at, book, [], 1, 0, p) && Injective(at) && [] in at && at[[]] in h
    ensures NodeOk(h[at[[]] := h[at[[]]].(route := h[at[[]]].route + 1)], at, book, k, 0, 0, p)
  {
    hide Through, Twigs, Fans;
  }

  /** At length zero the path in progress makes no difference. */
  lemma DomainAtRoot(at: map<Path, Ptr>, book: Book, j: Path, k: Path)
    requires Domain(at, book, j, 0)
    ensures Domain(at, book, k, 0)
  {
    hide Through;
    forall p ensures p in at <==> Wanted(book, k, 0, p) { assert p in at <==> Wanted(book, j, 0, p); }
  }

  lemma DomainStored(at: map<Path, Ptr>, book: Book, s: nat, k: Path, v: Val)
    requires Domain(at, book, k, |k|) && s !in book.held && k != []
    ensures Domain(at, Added(book, s, k, v), [], 0) && k in at
  {
    hide Through, Twigs;
    forall p ensures p in at <==> Wanted(Added(book, s, k, v), [], 0, p) {
      ThroughAdd(book, s, k, v, p);
      assert p in at <==> Wanted(book, k, |k|, p);
    }
    assert Wanted(book, k, |k|, k);
  }

  /** The value is stored last. */
  lemma FinishAdd(h: Heap, at: map<Path, Ptr>, book: Book, s: nat, k: Path, v: Val)
    requires Mid(h, at, book, k, 0, |k|) && Nibbles(k) && k != [] && s !in book.held
    ensures k in at && at[k] in h && k[..|k| - 1] in at && at[k[..|k| - 1]] in h && at[k] != at[k[..|k| - 1]]
    ensures var q, u := at[k], at[k[..|k| - 1]];
      Inv(h[q := h[q].(mapping := v)][u := h[u].(leaves := (h[u].leaves + 1) % 0x10000)], at, Added(book, s, k, v))
  {
    hide NodeOk, Wanted, Through, Twigs, Fans, Injective, Domain, Backed, Added;
    MidFacts(h, at, book, k, 0, |k|);
    DomainStored(at, book, s, k, v);
    ApartByLength(at, k);
    BackedAdd(book, s, k, v);
    var q, u := at[k], at[k[..|k| - 1]];
    var h' := h[q := h[q].(mapping := v)][u := h[u].(leaves := (h[u].leaves + 1) % 0x10000)];
    forall p | p in at ensures NodeOk(h', at, Added(book, s, k, v), [], 1, 0, p) {
      StoredNode(h, at, book, s, k, v, p);
    }
  }

  lemma ApartByLength(at: map<Path, Ptr>, k: Path)
    requires Injective(at) && k != [] && k in at && k[..|k| - 1] in at
    ensures at[k] != at[k[..|k| - 1]]
  {
    assert |k[..|k| - 1]| < |k|;
  }

  lemma StoredNode(h: Heap, at: map<Path, Ptr>, book: Book, s: nat, k: Path, v: Val, p: Path)
    requires NodeOk(h, at, book, k, 0, |k|, p) && Injective(at) && Nibbles(k) && k != [] && s !in book.held
    requires k in at && at[k] in h && k[..|k| - 1] in at && at[k[..|k| - 1]] in h
    ensures var q, u := at[k], at[k[..|k| - 1]];
      NodeOk(h[q := h[q].(mapping := v)][u := h[u].(leaves := (h[u].leaves + 1) % 0x10000)], at,
          Added(book, s, k, v), [], 1, 0, p)
  {
    hide Through, Twigs, Fans, Nibbles;
    ThroughAdd(book, s, k, v, p);
  }

  // ---------------------------------------------------------------- removing

  /** The first writes of a removal: the root's count, the value, the parent's leaves. */
  function Cleared(h: Heap, root: Ptr, q: Ptr, u: Ptr): Heap
    requires root in h && q in h && u in h
  {
    var h1 := h[root := h[root].(route := h[root].route - 1)];
    var h2 := h1[q := h1[q].(mapping := 0)];
    h2[u := h2[u].(leaves := (h2[u].leaves + 0xFFFF) % 0x10000)]
  }

  lemma StartDel(h: Heap, at: map<Path, Ptr>, book: Book, s: nat, k: Path)
    requires Inv(h, at, book) && s in book.held && book.held[s] == k
    ensures k != [] && Nibbles(k) && [] in at && k in at && k[..|k| - 1] in at
    ensures at[[]] in h && at[k] in h && at[k[..|k| - 1]] in h
    ensures Mid(Cleared(h, at[[]], at[k], at[k[..|k| - 1]]), at, TakenBack(book, s, k), k, 1, |k|)
  {
    hide NodeOk, Through, Twigs, Fans, Nibbles, Cleared, TakenBack;
    MidFacts(h, at, book, [], 1, 0);
    ThroughDrop(book, s, k, k);
    assert Wanted(book, [], 0, k);
    BackedDrop(book, s, k);
    var h', book' := Cleared(h, at[[]], at[k], at[k[..|k| - 1]]), TakenBack(book, s, k);
    forall p | p in at ensures NodeOk(h', at, book', k, 1, |k|, p) { ClearedNode(h, at, book, s, k, p); }
    forall p ensures p in at <==> Wanted(book', k, |k|, p) { ThroughDrop(book, s, k, p); }
  }

  lemma ClearedNode(h: Heap, at: map<Path, Ptr>, book: Book, s: nat, k: Path, p: Path)
    requires NodeOk(h, at, book, [], 1, 0, p) && Injective(at) && k != [] && s in book.held && book.held[s] == k
    requires [] in at && k in at && k[..|k| - 1] in at && at[[]] in h && at[k] in h && at[k[..|k| - 1]] in h
    ensures NodeOk(Cleared(h, at[[]], at[k], at[k[..|k| - 1]]), at, TakenBack(book, s, k), k, 1, |k|, p)
  {
    hide Through, Twigs, Fans;
    ThroughDrop(book, s, k, p);
    ApartByLength(at, k);
  }

  /** A node others still go through only loses a count. */
  lemma StepKeep(h: Heap, at: map<Path, Ptr>, book: Book, k: Path, d: nat)
    requires Mid(h, at, book, k, 1, d + 1) && d < |k| && k[..d + 1] in at && at[k[..d + 1]] in h
    requires h[at[k[..d + 1]]].route != 1
    ensures var q := at[k[..d + 1]]; Mid(h[q := h[q].(route := h[q].route - 1)], at, book, k, 1, d)
  {
    hide NodeOk, Wanted, Through, Twigs, Fans, Nibbles, Injective, Domain;
    var e := k[..d + 1];
    var q := at[e];
    var h' := h[q := h[q].(route := h[q].route - 1)];
    LastOne(h, at, book, k, d);
    forall p | p in at ensures NodeOk(h', at, book, k, 1, d, p) { UncountedNode(h, at, book, k, d, p); }
    DomainStays(at, book, k, d);
  }

  lemma DomainStays(at: map<Path, Ptr>, book: Book, k: Path, d: nat)
    requires d < |k| && Domain(at, book, k, d + 1) && Through(book, k[..d + 1]) != {}
    ensures Domain(at, book, k, d)
  {
    hide Wanted, Through;
    WantedGrows(book, k, d, k[..d + 1]);
    forall p ensures p in at <==> Wanted(book, k, d, p) { WantedGrows(book, k, d, p); }
  }

  lemma UncountedNode(h: Heap, at: map<Path, Ptr>, book: Book, k: Path, d: nat, p: Path)
    requires NodeOk(h, at, book, k, 1, d + 1, p) && Injective(at) && d < |k| && k[..d + 1] in at
        && at[k[..d + 1]] in h
    ensures var q := at[k[..d + 1]]; NodeOk(h[q := h[q].(route := h[q].route - 1)], at, book, k, 1, d, p)
  {
    ExtraGrows(k, 1, d, p);
    hide Through, Twigs, Fans, Prefix, Extra;
  }

  /** A node nobody else goes through is freed. */
  lemma StepPrune(h: Heap, at: map<Path, Ptr>, book: Book, k: Path, d: nat)
    requires Mid(h, at, book, k, 1, d + 1) && Nibbles(k) && d < |k| && k[..d + 1] in at && at[k[..d + 1]] in h
    requires h[at[k[..d + 1]]].route == 1
    ensures k[..d] in at && at[k[..d]] in h && |h[at[k[..d]]].child| == 16 && 0 <= k[d] < 16
        && at[k[..d]] != at[k[..d + 1]]
    ensures var p := at[k[..d]];
      Mid((h - {at[k[..d + 1]]})[p := h[p].(child := h[p].child[k[d] := NULL], branch := h[p].branch - 1)],
          at - {k[..d + 1]}, book, k, 1, d)
  {
    hide NodeOk, Through, Twigs, Fans, Nibbles, Wanted, Domain, Injective;
    NibbleAt(k, d);
    MidFacts(h, at, book, k, 1, d + 1);
    Extend(k, d, k[..d + 1]);
    ApartByLength(at, k[..d + 1]);
    LastOne(h, at, book, k, d);
    var f, e := k[..d], k[..d + 1];
    var p, q := at[f], at[e];
    var h', at' := (h - {q})[p := h[p].(child := h[p].child[k[d] := NULL], branch := h[p].branch - 1)], at - {e};
    forall r | r in at' ensures NodeOk(h', at', book, k, 1, d, r) {
      if r != [] { LeafOnly(at, book, k, d, r); }
      PrunedNode(h, at, book, k, d, r);
    }
    DomainShrinks(at, book, k, d);
    InjectiveShrinks(at, e);
  }

  lemma InjectiveShrinks(at: map<Path, Ptr>, e: Path)
    requires Injective(at)
    ensures Injective(at - {e})
  {}

  lemma LastOne(h: Heap, at: map<Path, Ptr>, book: Book, k: Path, d: nat)
    requires d < |k| && NodeOk(h, at, book, k, 1, d + 1, k[..d + 1])
    ensures h[at[k[..d + 1]]].route == 1 <==> Through(book, k[..d + 1]) == {}
  {
    ExtraGrows(k, 1, d, k[..d + 1]);
  }

  lemma DomainShrinks(at: map<Path, Ptr>, book: Book, k: Path, d: nat)
    requires d < |k| && Domain(at, book, k, d + 1) && Through(book, k[..d + 1]) == {}
    ensures Domain(at - {k[..d + 1]}, book, k, d)
  {
    hide Wanted, Through;
    var at' := at - {k[..d + 1]};
    WantedGrows(book, k, d, k[..d + 1]);
    forall p ensures p in at' <==> Wanted(book, k, d, p) { WantedGrows(book, k, d, p); }
  }

  /** Nothing hangs below a node that is pruned. */
  lemma LeafOnly(at: map<Path, Ptr>, book: Book, k: Path, d: nat, r: Path)
    requires d < |k| && Domain(at, book, k, d + 1) && Through(book, k[..d + 1]) == {} && r in at && r != []
    ensures r[..|r| - 1] != k[..d + 1]
  {
    var u, i := r[..|r| - 1], r[|r| - 1];
    assert r == u + [i];
    ThroughShrinks(book, u, i);
    assert Wanted(book, k, d + 1, r);
  }

  lemma PrunedNode(h: Heap, at: map<Path, Ptr>, book: Book, k: Path, d: nat, r: Path)
    requires NodeOk(h, at, book, k, 1, d + 1, r) && Injective(at) && Nibbles(k) && d < |k| && k[..d + 1] in at
        && k[..d] in at
    requires at[k[..d]] in h && |h[at[k[..d]]].child| == 16 && r != k[..d + 1]
        && (r != [] ==> r[..|r| - 1] != k[..d + 1])
    ensures var p := at[k[..d]];
      NodeOk((h - {at[k[..d + 1]]})[p := h[p].(child := h[p].child[k[d] := NULL], branch := h[p].branch - 1)],
          at - {k[..d + 1]}, book, k, 1, d, r)
  {
    hide Through, Twigs, Fans, Nibbles;
    NibbleAt(k, d);
    var f, e, i := k[..d], k[..d + 1], k[d];
    var at' := at - {e};
    Extend(k, d, r);
    ExtraGrows(k, 1, d, r);
    FansDrop(at.Keys, f, i, r);
    assert at'.Keys == at.Keys - {e};
    forall j | 0 <= j < 16 ensures Ask(at', r + [j]) == if r == f && j == i then NULL else Ask(at, r + [j]) {
        SplitLast(r, j, f, i); }
  }

  lemma FinishDel(h: Heap, at: map<Path, Ptr>, book: Book, k: Path)
    requires Mid(h, at, book, k, 1, 0)
    ensures Inv(h, at, book)
  {
    hide Through, Twigs, Fans;
    forall p | p in at ensures NodeOk(h, at, book, [], 1, 0, p) { assert NodeOk(h, at, book, k, 1, 0, p); }
  }
}
