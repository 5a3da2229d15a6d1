/** The order in which tree_rise visits the paths of the nibble tree. */
module TrieOrder {
  import opened Common
  import opened TrieShape

  /** Smaller nibbles first, and a path before its continuations. */
  predicate Lex(p: Path, q: Path) {
    q != [] && (p == [] || p[0] < q[0] || (p[0] == q[0] && Lex(p[1..], q[1..])))
  }

  lemma PrefixStep(p: Path, q: Path)
    requires p != []
    ensures Prefix(p, q) <==> q != [] && p[0] == q[0] && Prefix(p[1..], q[1..])
  {
    if q != [] && |p| <= |q| {
      assert q[..|p|] == [q[0]] + q[1..][..|p| - 1];
      assert p == [p[0]] + p[1..];
      if q[..|p|] == p { assert q[1..][..|p| - 1] == q[..|p|][1..]; }
    }
  }

  /** Past a child come the paths below it, then the next child. */
  lemma {:induction false} NextSibling(q: Path, p: Path, i: int)
    ensures Lex(q, p + [i + 1]) <==> Lex(q, p + [i]) || Prefix(p + [i], q)
    decreases p
  {
    PrefixStep(p + [i], q);
    if p == [] {
      if q != [] { assert Prefix([], q[1..]); assert !Lex(q[1..], []); }
    } else if q != [] {
      assert (p + [i])[1..] == p[1..] + [i] && (p + [i + 1])[1..] == p[1..] + [i + 1];
      NextSibling(q[1..], p[1..], i);
    }
  }

  /** Past the last child everything at and below the node is past. */
  lemma {:induction false} AllBelow(q: Path, p: Path)
    requires Nibbles(q)
    ensures Lex(q, p + [16]) <==> Lex(q, p) || Prefix(p, q)
    decreases p
  {
    if p == [] {
    } else {
      PrefixStep(p, q);
      if q != [] {
        assert (p + [16])[1..] == p[1..] + [16];
        AllBelow(q[1..], p[1..]);
      }
    }
  }

  /** Before the first child there is only the node itself. */
  lemma {:induction false} FirstChild(q: Path, p: Path)
    requires Nibbles(q)
    ensures Lex(q, p + [0]) <==> Lex(q, p) || q == p
    decreases p
  {
    if p != [] && q != [] {
      assert (p + [0])[1..] == p[1..] + [0];
      FirstChild(q[1..], p[1..]);
      assert q == p <==> q[0] == p[0] && q[1..] == p[1..] by {
        assert q == [q[0]] + q[1..] && p == [p[0]] + p[1..];
      }
    }
  }

  lemma {:induction false} StepOver(q: Path, u: Path, l: int, p: Path)
    requires p == u + [l]
    ensures Lex(q, u + [l + 1]) <==> Lex(q, p) || Prefix(p, q)
  {
    NextSibling(q, u, l);
  }

  /** Leaving a node by its last child is the same as stepping over it in its parent. */
  lemma {:induction false} ClimbSame(q: Path, p: Path)
    requires Nibbles(q) && p != []
    ensures Lex(q, p + [16]) <==> Lex(q, p[..|p| - 1] + [p[|p| - 1] + 1])
  {
    hide Lex, Prefix;
    AllBelow(q, p);
    StepOver(q, p[..|p| - 1], p[|p| - 1], p);
  }

  // ---------------------------------------------------------------- progress of the listing

  /** The list holds the stored paths from `from` up to the cursor, in order. */
  ghost predicate Listed(order: seq<Path>, vals: map<Path, Val>, from: Path, c: Path) {
    && (forall q :: q in order <==> q in vals && !Lex(q, from) && Lex(q, c))
    && Ascending(order) && Past(from, c)
  }

  /** The cursor is at `from` or behind it. */
  ghost predicate Past(from: Path, c: Path) {
    forall q :: Nibbles(q) && Lex(q, from) ==> Lex(q, c)
  }

  ghost predicate Ascending(order: seq<Path>) {
    forall i, j :: 0 <= i < j < |order| ==> Lex(order[i], order[j])
  }

  /** The nodes still ahead of the cursor. */
  ghost function Ahead(at: map<Path, Ptr>, c: Path): set<Path> {
    set p | p in at && !Lex(p, c)
  }

  ghost predicate PathsOk(at: map<Path, Ptr>, vals: map<Path, Val>) {
    && (forall p :: p in at ==> Nibbles(p))
    && (forall q :: q in vals ==> Nibbles(q) && q != [])
    && (forall q, p :: q in vals && Prefix(p, q) ==> p in at)
  }

  lemma PathsAreOk(h: Heap, at: map<Path, Ptr>, book: Book)
    requires Inv(h, at, book)
    ensures PathsOk(at, book.vals)
  {
    forall p | p in at ensures Nibbles(p) {
      assert Wanted(book, [], 0, p);
      if p != [] {
        var s :| s in Through(book, p);
        var q := book.held[s];
        assert forall i :: 0 <= i < |p| ==> p[i] == q[..|p|][i] == q[i];
      }
    }
    forall q | q in book.vals ensures Nibbles(q) && q != [] { ValueHeld(book, q); }
    forall q, p | q in book.vals && Prefix(p, q) ensures p in at {
      var s :| s in book.held && book.held[s] == q;
      assert s in Through(book, p);
      assert Wanted(book, [], 0, p);
    }
  }

  /** An empty slot is passed. */
  lemma SkipSlot(at: map<Path, Ptr>, vals: map<Path, Val>, order: seq<Path>, from: Path, p: Path, i: int)
    requires PathsOk(at, vals) && Listed(order, vals, from, p + [i]) && p + [i] !in at
    ensures Listed(order, vals, from, p + [i + 1]) && Ahead(at, p + [i + 1]) <= Ahead(at, p + [i])
  {
    hide Lex;
    forall q ensures q in vals ==> (Lex(q, p + [i]) <==> Lex(q, p + [i + 1])) { NextSibling(q, p, i); }
    forall q | Nibbles(q) && Lex(q, from) ensures Lex(q, p + [i + 1]) { NextSibling(q, p, i); }
    forall q | q in at && !Lex(q, p + [i + 1]) ensures !Lex(q, p + [i]) { NextSibling(q, p, i); }
  }

  /** A child is entered, and listed if it holds a value. */
  lemma EnterChild(at: map<Path, Ptr>, vals: map<Path, Val>, order: seq<Path>, from: Path, p: Path, i: int)
    requires PathsOk(at, vals) && Listed(order, vals, from, p + [i]) && p + [i] in at
    ensures Listed(if p + [i] in vals then order + [p + [i]] else order, vals, from, p + [i] + [0])
    ensures Ahead(at, p + [i] + [0]) < Ahead(at, p + [i])
  {
    hide Lex;
    var e := p + [i];
    var order' := if e in vals then order + [e] else order;
    forall q ensures q in vals ==> (Lex(q, e + [0]) <==> Lex(q, e) || q == e) { if q in vals { FirstChild(q, e); } }
    forall q | q in at && !Lex(q, e + [0]) ensures !Lex(q, e) && q != e { FirstChild(q, e); FirstChild(e, e); }
    forall q | Nibbles(q) && Lex(q, from) ensures Lex(q, e + [0]) { FirstChild(q, e); }
    FirstChild(e, e);
    NotSelf(e);
    assert e in Ahead(at, e) && e !in Ahead(at, e + [0]);
  }

  lemma {:induction false} NotSelf(e: Path)
    ensures !Lex(e, e)
  {
    if e != [] { NotSelf(e[1..]); }
  }

  /** A node with one path through it, its own, has nothing below. */
  lemma SkipBelow(at: map<Path, Ptr>, vals: map<Path, Val>, order: seq<Path>, from: Path, p: Path)
    requires PathsOk(at, vals) && Listed(order, vals, from, p + [0])
    requires forall q :: q in vals && Prefix(p, q) ==> q == p
    ensures Listed(order, vals, from, p + [16]) && Ahead(at, p + [16]) <= Ahead(at, p + [0])
  {
    hide Lex;
    forall q | Nibbles(q) && Lex(q, from) ensures Lex(q, p + [16]) {
        FirstChild(q, p); AllBelow(q, p); assert q == p ==> Prefix(p, q); }
    forall q ensures q in vals ==> (Lex(q, p + [0]) <==> Lex(q, p + [16])) {
      if q in vals {
        FirstChild(q, p);
        AllBelow(q, p);
        assert q == p ==> Prefix(p, q);
      }
    }
    forall q | q in at && !Lex(q, p + [16]) ensures !Lex(q, p + [0]) {
        FirstChild(q, p); AllBelow(q, p); assert q == p ==> Prefix(p, q); }
  }

  /** The cursor climbs. */
  lemma LeaveNode(at: map<Path, Ptr>, vals: map<Path, Val>, order: seq<Path>, from: Path, p: Path)
    requires PathsOk(at, vals) && Listed(order, vals, from, p + [16]) && p != []
    ensures var u := p[..|p| - 1] + [p[|p| - 1] + 1];
        Listed(order, vals, from, u) && Ahead(at, u) == Ahead(at, p + [16])
  {
    hide Lex;
    var u := p[..|p| - 1] + [p[|p| - 1] + 1];
    forall q ensures q in vals ==> (Lex(q, u) <==> Lex(q, p + [16])) { if q in vals { ClimbSame(q, p); } }
    forall q | Nibbles(q) && Lex(q, from) ensures Lex(q, u) { ClimbSame(q, p); }
    forall q | q in at ensures Lex(q, u) <==> Lex(q, p + [16]) { ClimbSame(q, p); }
  }

  /** Past the root every stored path from `from` on is listed. */
  lemma LeaveRoot(at: map<Path, Ptr>, vals: map<Path, Val>, order: seq<Path>, from: Path)
    requires PathsOk(at, vals) && Listed(order, vals, from, [] + [16])
    ensures forall q :: q in order <==> q in vals && !Lex(q, from)
  {
    forall q | q in vals ensures Lex(q, [] + [16]) { AllBelow(q, []); }
  }

  lemma StartListing(at: map<Path, Ptr>, vals: map<Path, Val>, p: Path)
    requires PathsOk(at, vals)
    ensures Listed([], vals, p + [0], p + [0])
  {
  }

  /** The list begins the listing of all stored paths from `from` on. */
  ghost predicate Leading(order: seq<Path>, vals: map<Path, Val>, from: Path) {
    && (forall q :: q in order ==> q in vals && !Lex(q, from))
    && (forall q, p :: q in vals && !Lex(q, from) && q !in order && p in order ==> Lex(p, q))
  }

  lemma LeadingStored(order: seq<Path>, vals: map<Path, Val>, from: Path)
    requires Leading(order, vals, from)
    ensures forall q :: q in order ==> q in vals
  {
  }

  lemma AllLeads(order: seq<Path>, vals: map<Path, Val>, from: Path)
    requires forall q :: q in order <==> q in vals && !Lex(q, from)
    ensures Leading(order, vals, from)
  {
  }

  /** A listing that was stopped. */
  lemma ListedLeads(order: seq<Path>, vals: map<Path, Val>, from: Path, c: Path)
    requires Listed(order, vals, from, c)
    ensures Leading(order, vals, from) && Ascending(order)
  {
    hide Lex;
    forall q, p | q in vals && !Lex(q, from) && q !in order && p in order ensures Lex(p, q) { LexBefore(p, c, q); }
  }

  lemma {:induction false} LexBefore(p: Path, c: Path, q: Path)
    requires Lex(p, c) && !Lex(q, c)
    ensures Lex(p, q)
    decreases |p|
  {
    if p != [] && q != [] && p[0] == c[0] == q[0] { LexBefore(p[1..], c[1..], q[1..]); }
  }

  /** Behind a node, in the order of the paths. */
  lemma BehindNode(q: Path, p: Path)
    requires Nibbles(q)
    ensures !Lex(q, p + [0]) <==> Lex(p, q)
    decreases p
  {
    if p != [] && q != [] {
      assert (p + [0])[1..] == p[1..] + [0];
      BehindNode(q[1..], p[1..]);
    }
  }

  // ---------------------------------------------------------------- keys

  /** The usual order of byte strings: a key before its continuations. */
  predicate KeyLess(a: seq<Byte>, b: seq<Byte>) {
    b != [] && (a == [] || a[0] < b[0] || (a[0] == b[0] && KeyLess(a[1..], b[1..])))
  }

  lemma {:induction false} NibOrder(a: seq<Byte>, b: seq<Byte>)
    ensures Lex(Nib(a), Nib(b)) <==> KeyLess(a, b)
    decreases a
  {
    if a != [] && b != [] {
      NibOrder(a[1..], b[1..]);
      Peel(a);
      Peel(b);
      hide Nib;
      LexTwo(Nib(a), Nib(b));
    }
  }

  lemma Peel(a: seq<Byte>)
    requires a != []
    ensures Nib(a)[0] == a[0] / 16 && Nib(a)[1] == a[0] % 16 && Nib(a)[2..] == Nib(a[1..])
  {}

  lemma LexTwo(p: Path, q: Path)
    requires |p| >= 2 && |q| >= 2
    ensures Lex(p, q) <==> p[0] < q[0] || (p[0] == q[0] && (p[1] < q[1] || (p[1] == q[1] && Lex(p[2..], q[2..]))))
  {
    assert p[1..][1..] == p[2..] && q[1..][1..] == q[2..];
  }
}
