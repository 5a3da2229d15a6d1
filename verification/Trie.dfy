/** xtree of src/xnet/xtree.h: a tree of sixteen-way nodes with parent links and counters. */
module Trie {
  import opened Common
  import opened TrieShape
  import opened TrieOrder
  import opened TrieKeys
  import opened TrieClear
  import opened TrieCut

  class Trie {
    var heap: Heap
    const root: Ptr
    /** Memory below this address has been handed out. */
    var top: int
    ghost var at: map<Path, Ptr>
    /** The stored values, and the additions that no deletion has taken back, each under a stamp. */
    ghost var contents: map<Bytes, Val>
    ghost var calls: map<nat, Bytes>
    ghost var stamp: nat
    /** Both by path. */
    ghost var book: Book

    ghost predicate Placed()
      reads this
    {
      && [] in at && at[[]] == root && 0 < top
      && (forall x :: x in heap ==> x < top)
    }

    ghost predicate Valid()
      reads this
    {
      && Placed() && Inv(heap, at, book) && Spelled(contents, book.vals) && Called(calls, book.held)
      && (forall s :: s in calls ==> s < stamp)
    }

    /** xtree_create */
    constructor ()
      ensures Valid() && contents == map[] && calls == map[]
    {
      root, top := 1, 2;
      heap := map[1 := Cell(Blank(), 0, NULL, 0, 0, 0, 0)];
      at, book, contents, calls, stamp := map[[] := 1], Book(map[], map[]), map[], map[], 0;
      new;
      EmptyTrie(root);
    }

    /** One nibble of xtree_add: creates the node if it is missing, and counts it. */
    method Descend(tree: Ptr, i: int, ghost k: Path, ghost d: nat) returns (node: Ptr)
      requires Placed() && Mid(heap, at, book, k, 0, d) && Nibbles(k) && d < |k| && i == k[d]
      requires k[..d] in at && tree == at[k[..d]]
      modifies `heap, `top, `at
      ensures Placed() && Mid(heap, at, book, k, 0, d + 1)
      ensures k[..d] in at && tree == at[k[..d]] && k[..d + 1] in at && node == at[k[..d + 1]]
    {
      hide Mid, Nibbles, Blank;
      MidFacts(heap, at, book, k, 0, d);
      NibbleAt(k, d);
      Extend(k, d, k[..d + 1]);
      ChildIs(heap, at, book, k, 0, d, k[..d], i);
      if heap[tree].child[i] == NULL {
        StepNew(heap, at, book, k, d, top);
        node := top;
        top := top + 1;
        heap := heap[tree := heap[tree].(child := heap[tree].child[i := node])];
        heap := heap[node := Cell(Blank(), 0, NULL, 0, 0, 0, 0)];
        heap := heap[tree := heap[tree].(branch := heap[tree].branch + 1)];
        heap := heap[node := heap[node].(route := heap[node].route + 1, index := i, parent := tree)];
        ghost var h0 := old(heap);
        assert heap == h0[tree := h0[tree].(child := h0[tree].child[i := node], branch := h0[tree].branch + 1)]
                         [node := Cell(Blank(), 0, tree, 1, 0, 0, i)];
        at := at[k[..d + 1] := node];
      } else {
        StepExisting(heap, at, book, k, d);
        node := heap[tree].child[i];
        heap := heap[node := heap[node].(route := heap[node].route + 1, index := i, parent := tree)];
      }
    }

    /** The descent of xtree_add: every node along the key is there and counted once more. */
    method Lay(key: seq<Byte>) returns (tree: Ptr, parent: Ptr)
      requires Valid() && |key| >= 1
      modifies `heap, `top, `at
      ensures Placed() && Mid(heap, at, book, Nib(key), 0, |Nib(key)|)
      ensures Nib(key) in at && tree == at[Nib(key)]
      ensures Nib(key)[..|Nib(key)| - 1] in at && parent == at[Nib(key)[..|Nib(key)| - 1]]
    {
      hide Inv, Mid, Nib, Spelled, Called;
      ghost var k := Nib(key);
      StartAdd(heap, at, book, k);
      tree, parent := root, NULL;
      heap := heap[tree := heap[tree].(route := heap[tree].route + 1)];
      var len := 0;
      assert k[..0] == [];
      while len < |key|
        invariant 0 <= len <= |key| && Placed() && Mid(heap, at, book, k, 0, 2 * len)
        invariant k[..2 * len] in at && tree == at[k[..2 * len]]
        invariant len > 0 ==> k[..2 * len - 1] in at && parent == at[k[..2 * len - 1]]
      {
        NibAt(key, len);
        tree := Descend(tree, key[len] / 16, k, 2 * len);
        parent := tree;
        tree := Descend(tree, key[len] % 16, k, 2 * len + 1);
        len := len + 1;
      }
      assert k[..|k|] == k;
    }

    /** xtree_add. A key that is stored already gets the new value and counts once more. */
    method Add(key: seq<Byte>, mapping: Val)
      requires Valid() && |key| >= 1
      modifies this
      ensures Valid() && contents == Stored(old(contents), key, mapping)
      ensures old(stamp) !in old(calls) && calls == old(calls)[old(stamp) := key]
    {
      hide Inv, Mid, Nib, Spelled, Called, Added, Stored, Put;
      ghost var k, s := Nib(key), stamp;
      ghost var contents', calls', book' := Stored(contents, key, mapping), calls[s := key], Added(book, s, k, mapping);
      SpelledPut(contents, book.vals, key, mapping);
      CalledAdd(calls, book.held, s, key);
      SameStamps(calls, book.held);
      AddedIs(book, s, k, mapping);
      var tree, parent := Lay(key);
      Store(tree, parent, mapping, k, s);
      book, contents, calls, stamp := book', contents', calls', s + 1;
    }

    /** The last writes of it. */
    method Store(tree: Ptr, parent: Ptr, mapping: Val, ghost k: Path, ghost s: nat)
      requires Placed() && Mid(heap, at, book, k, 0, |k|) && Nibbles(k) && k != [] && s !in book.held
      requires k in at && tree == at[k] && k[..|k| - 1] in at && parent == at[k[..|k| - 1]]
      modifies `heap
      ensures Placed() && Inv(heap, at, Added(book, s, k, mapping))
    {
      hide Inv, Mid, Nibbles, Added;
      FinishAdd(heap, at, book, s, k, mapping);
      heap := heap[tree := heap[tree].(mapping := mapping)];
      heap := heap[parent := heap[parent].(leaves := (heap[parent].leaves + 1) % 0x10000)];
    }

    /** The descent of xtree_find and xtree_del. */
    method Walk(key: seq<Byte>) returns (tree: Ptr)
      requires Valid()
      ensures tree == Ask(at, Nib(key)) == Reach(heap, root, Nib(key))
    {
      hide Inv, Mid, Nib, Nibbles, Spelled;
      ghost var k := Nib(key);
      tree := root;
      var len := 0;
      assert k[..0] == [];
      while len < |key|
        invariant 0 <= len <= |key| && tree == Ask(at, k[..2 * len])
      {
        NibAt(key, len);
        if tree != NULL {
          tree := Child(tree, key[len] / 16, k, 2 * len);
        } else {
          GoneBelow(heap, at, book, k, 2 * len);
          break;
        }
        if tree != NULL {
          tree := Child(tree, key[len] % 16, k, 2 * len + 1);
        } else {
          GoneBelow(heap, at, book, k, 2 * len + 1);
          break;
        }
        len := len + 1;
      }
      assert k[..|k|] == k && k[0..] == k;
      ReachIs(heap, at, book, k, 0);
    }

    method Child(tree: Ptr, i: int, ghost k: Path, ghost d: nat) returns (child: Ptr)
      requires Valid() && d < |k| && i == k[d] && Nibbles(k) && tree == Ask(at, k[..d]) && tree != NULL
      ensures child == Ask(at, k[..d + 1])
    {
      hide Mid, Nibbles, Spelled;
      MidFacts(heap, at, book, [], 1, 0);
      NibbleAt(k, d);
      Extend(k, d, k[..d + 1]);
      ChildIs(heap, at, book, [], 1, 0, k[..d], i);
      child := heap[tree].child[i];
    }

    /** xtree_find */
    method Find(key: seq<Byte>) returns (v: Val)
      requires Valid()
      ensures v == Lookup(contents, key)
    {
      hide Mid, Nib, Spelled;
      SpelledLookup(contents, book.vals, key);
      var tree := Walk(key);
      if tree != NULL {
        MappingIs(heap, at, book, Nib(key));
        return heap[tree].mapping;
      }
      StoredHasNode(heap, at, book, Nib(key));
      return 0;
    }

    /** One nibble of the climb of xtree_del: the node loses a count, and is freed with the last. */
    method Ascend(tree: Ptr, i: int, ghost k: Path, ghost d: nat, ghost owned: bool, ghost lone: bool,
        ghost total: int) returns (parent: Ptr)
      requires Placed() && Nibbles(k) && d < |k| && i == k[d] && k[..d + 1] in at && tree == at[k[..d + 1]]
      requires Climbing(owned, lone, total, heap, at, book, k, d + 1)
      modifies `heap, `at
      ensures Placed() && k[..d] in at && parent == at[k[..d]]
      ensures Climbing(owned, lone, total, heap, at, book, k, d)
    {
      hide Climbing, Nibbles;
      assert |k[..d + 1]| == d + 1 && |k[..d]| == d;
      ClimbFacts(owned, lone, total, heap, at, book, k, d);
      if heap[tree].route == 1 {
        ClimbFree(owned, lone, total, heap, at, book, k, d);
      } else {
        ClimbKeep(owned, lone, total, heap, at, book, k, d);
      }
      if owned && heap[tree].route == 1 { at := at - {k[..d + 1]}; }
      parent := Uncount(tree, i);
    }

    /** The writes of it. */
    method Uncount(tree: Ptr, i: int) returns (parent: Ptr)
      requires tree in heap && heap[tree].parent in heap && heap[tree].parent != tree
      requires 0 <= i < |heap[heap[tree].parent].child|
      modifies `heap
      ensures parent == old(heap)[tree].parent && heap.Keys <= old(heap).Keys
      ensures old(heap)[tree].route == 1 ==> heap == (old(heap) - {tree})[parent := old(heap)[parent].(
          child := old(heap)[parent].child[i := NULL], branch := old(heap)[parent].branch - 1)]
      ensures old(heap)[tree].route != 1 ==>
          heap == old(heap)[tree := old(heap)[tree].(route := old(heap)[tree].route - 1)]
    {
      ghost var h0 := heap;
      parent := heap[tree].parent;
      heap := heap[tree := heap[tree].(route := heap[tree].route - 1)];
      if heap[tree].route == 0 {
        heap := heap - {tree};
        heap := heap[parent := heap[parent].(child := heap[parent].child[i := NULL])];
        heap := heap[parent := heap[parent].(branch := heap[parent].branch - 1)];
        assert heap == (h0 - {tree})[parent := h0[parent].(child := h0[parent].child[i := NULL],
            branch := h0[parent].branch - 1)];
      }
    }

    /** xtree_del. It takes back one addition of the key, if there is one, and does nothing when no
        key that was added continues it. Otherwise the total goes wrong, and when a single addition
        goes on behind the key, that one is cut off. */
    method Del(key: seq<Byte>) returns (mapping: Val)
      requires Valid() && |key| >= 1
      modifies `heap, `at, `book, `contents, `calls
      ensures mapping == Lookup(old(contents), key) && contents == old(contents) - {key}
      ensures Valid() <==> Owned(old(calls), key)
      ensures Owned(old(calls), key) ==> TookBack(old(calls), calls, key)
      ensures !Owned(old(calls), key) ==> calls == old(calls) && root in heap && heap[root].route == |calls| - 1
      ensures !Owned(old(calls), key) && |Continuing(calls, key)| == 1 ==> Reach(heap, root, Nib(key)) == NULL
    {
      hide Inv, Nib, Cleared, Spelled, Called, Nibbles, Climbing, Owned, TookBack, Reach;
      ghost var k := Nib(key);
      SpelledLookup(contents, book.vals, key);
      NodeIff(heap, at, calls, book, key);
      mapping := 0;
      var tree := Walk(key);
      StoredHasNode(heap, at, book, k);
      if tree == NULL {
        KeyGone(contents, key);
        NoneContinues(calls, key);
        return;
      }
      ghost var owned, lone, total := Owned(calls, key), |Continuing(calls, key)| == 1, |calls| - 1;
      ghost var book', calls' := Record(heap, at, contents, calls, book, key);
      mapping := Take(tree);
      book, calls, contents := book', calls', contents - {key};
      TakeBack(tree, key, owned, lone, total);
      Climbed(owned, lone, total, heap, at, calls, book, k);
    }

    /** The climb of it, from the node of the key to the root. */
    method TakeBack(from: Ptr, key: seq<Byte>, ghost owned: bool, ghost lone: bool, ghost total: int)
      requires Placed() && Nib(key) in at && from == at[Nib(key)]
      requires Climbing(owned, lone, total, heap, at, book, Nib(key), 2 * |key|)
      modifies `heap, `at
      ensures Placed() && Climbing(owned, lone, total, heap, at, book, Nib(key), 0)
    {
      hide Climbing, Nib, Nibbles;
      ghost var k := Nib(key);
      var tree, len := from, |key|;
      assert k[..|k|] == k;
      while len > 0
        invariant 0 <= len <= |key| && Placed() && k[..2 * len] in at && tree == at[k[..2 * len]]
        invariant Climbing(owned, lone, total, heap, at, book, k, 2 * len)
      {
        NibAt(key, len - 1);
        tree := Ascend(tree, key[len - 1] % 16, k, 2 * len - 1, owned, lone, total);
        tree := Ascend(tree, key[len - 1] / 16, k, 2 * len - 2, owned, lone, total);
        len := len - 1;
      }
    }

    /** The first writes of it. */
    method Take(tree: Ptr) returns (mapping: Val)
      requires root in heap && tree in heap && tree != root && heap[tree].parent in heap && heap[tree].parent != tree
      modifies `heap
      ensures mapping == old(heap)[tree].mapping
      ensures heap == Cleared(old(heap), root, tree, old(heap)[tree].parent) && heap.Keys == old(heap).Keys
    {
      heap := heap[root := heap[root].(route := heap[root].route - 1)];
      mapping := heap[tree].mapping;
      heap := heap[tree := heap[tree].(mapping := 0)];
      var parent := heap[tree].parent;
      heap := heap[parent := heap[parent].(leaves := (heap[parent].leaves + 0xFFFF) % 0x10000)];
    }

    /** The inner loop of tree_rise: the next child that exists is entered and listed, until a
        node without further children is reached. The limit is counted down, not looked at. */
    method Sink(start: Ptr, slot: int, out: seq<Ptr>, count: int, ghost from: Path, ghost p: Path,
        ghost order: seq<Path>)
      returns (tree: Ptr, out': seq<Ptr>, count': int, ghost p': Path, ghost order': seq<Path>)
      requires Valid() && PathsOk(at, book.vals) && p in at && start == at[p] && 0 <= slot < 16 && 0 <= count < WORD
      requires Listed(order, book.vals, from, p + [slot]) && Points(at, out, order)
      ensures p' in at && tree == at[p'] && Listed(order', book.vals, from, p' + [16]) && Points(at, out', order')
      ensures Ahead(at, p' + [16]) <= Ahead(at, p + [slot])
      ensures p' == p || Ahead(at, p' + [16]) < Ahead(at, p + [slot])
      ensures 0 <= count' < WORD && Limit(count', out') == Limit(count, out)
    {
      hide Mid, Listed, Ahead, PathsOk, Lex, Spelled, Limit;
      tree, out', count', p', order' := start, out, count, p, order;
      var i := slot;
      ghost var ahead := Ahead(at, p + [slot]);
      while i < 16
        invariant 0 <= i < 16 && p' in at && tree == at[p']
        invariant Listed(order', book.vals, from, p' + [i]) && Points(at, out', order')
        invariant Ahead(at, p' + [i]) <= ahead && (p' == p || Ahead(at, p' + [i]) < ahead)
        invariant 0 <= count' < WORD && Limit(count', out') == Limit(count, out)
        decreases |Ahead(at, p' + [i])|, 16 - i
      {
        ChildIs(heap, at, book, [], 1, 0, p', i);
        ghost var before := Ahead(at, p' + [i]);
        if heap[tree].child[i] == NULL {
          SkipSlot(at, book.vals, order', from, p', i);
          if i == 15 { break; }
          SmallerSet(Ahead(at, p' + [i + 1]), before);
          i := i + 1;
        } else {
          EnterChild(at, book.vals, order', from, p', i);
          tree := heap[tree].child[i];
          p' := p' + [i];
          i := 0;
          SmallerSet(Ahead(at, p' + [0]), before);
          MappingIs(heap, at, book, p');
          StoredValues(heap, at, book, p');
          if heap[tree].mapping != 0 {
            Spend(count', out', tree);
            out', order' := out' + [tree], order' + [p'];
            count' := (count' + WORD - 1) % WORD;
            if heap[tree].route == 1 {
              SkipBelow(at, book.vals, order', from, p');
              break;
            }
          }
        }
      }
    }

    /** The loop of tree_rise, from the first slot of a node: the nodes of the stored paths behind
        it, each once, in order; all of them, or as many as the limit says. */
    method RiseBehind(start: Ptr, limit: int, ghost p0: Path) returns (out: seq<Ptr>, ghost order: seq<Path>)
      requires Valid() && p0 in at && start == at[p0] && 0 <= limit < WORD
      ensures Points(at, out, order) && Ascending(order) && Leading(order, book.vals, p0 + [0])
      ensures |out| % WORD == limit || forall q :: q in book.vals && !Lex(q, p0 + [0]) ==> q in order
    {
      hide Mid, Listed, Ahead, PathsOk, Lex, Spelled, Ascending, Leading, Limit;
      PathsAreOk(heap, at, book);
      MidFacts(heap, at, book, [], 1, 0);
      StartListing(at, book.vals, p0);
      out, order := [], [];
      var tree, i, count := start, 0, limit;
      LimitEnds(limit, out);
      ghost var p := p0;
      while tree != NULL && count != 0
        invariant 0 <= count < WORD && Limit(count, out) == limit
        invariant tree != NULL ==>
          p in at && tree == at[p] && 0 <= i < 16 && Listed(order, book.vals, p0 + [0], p + [i])
        invariant Points(at, out, order)
        invariant tree == NULL ==>
          Ascending(order) && forall q :: q in order <==> q in book.vals && !Lex(q, p0 + [0])
        decreases tree != NULL, if tree == NULL then {} else Ahead(at, p + [i]), |p|
      {
        tree, out, count, p, order := Sink(tree, i, out, count, p0 + [0], p, order);
        tree, i, p := Climb(tree, p0 + [0], p, order);
      }
      LimitEnds(count, out);
      if tree != NULL {
        ListedLeads(order, book.vals, p0 + [0], p + [i]);
      } else {
        AllLeads(order, book.vals, p0 + [0]);
      }
    }

    /** tree_rise. From the root: the nodes of the first stored keys, each once, in the order of the
        keys. From a key: its own node, if there is one, and then those of the first stored keys
        behind it. The list has as many nodes as the limit says, or is complete. */
    method Rise(start: Option<Bytes>, limit: int) returns (out: seq<Ptr>, ghost keys: seq<Bytes>)
      requires Valid() && 0 <= limit < WORD
      ensures KeysAscend(keys) && forall i :: 0 <= i < |keys| ==> keys[i] in contents
      ensures start.None? ==> NodesOf(heap, at, contents, out, keys)
      ensures start.Some? && Nib(start.value) !in at ==> out == [] && keys == []
      ensures start.Some? && Nib(start.value) in at ==>
        |out| > 0 && out[0] == at[Nib(start.value)] && NodesOf(heap, at, contents, out[1..], keys)
      ensures start.None? || Nib(start.value) in at ==>
        && var from := if start.Some? then start.value else [];
        && FirstBehind(contents, from, keys)
        && (|out| % WORD == limit || forall k :: k in contents && KeyLess(from, k) ==> k in keys)
    {
      hide Mid, Lex, Spelled, Nib, KeyLess, Ascending, Leading;
      var tree, count := root, limit;
      var from: Bytes := [];
      NibEmpty();
      if start.Some? {
        from := start.value;
        tree := Walk(from);
        StoredHasNode(heap, at, book, Nib(from));
        if tree == NULL { return [], []; }
        count := (count + WORD - 1) % WORD;
      }
      ghost var order;
      out, order := RiseBehind(tree, count, Nib(from));
      LeadingStored(order, book.vals, Nib(from) + [0]);
      keys := KeysOf(contents, book.vals, order);
      AscendingKeys(keys, order);
      LeadingKeys(contents, book.vals, keys, order, from);
      NodesListed(heap, at, contents, book, out, keys, order);
      if start.Some? {
        Spend(limit, out, tree);
        out := [tree] + out;
      }
    }

    /** The cursor moves to the next slot of the nearest ancestor that has one left. */
    method Climb(start: Ptr, ghost from: Path, ghost p: Path, ghost order: seq<Path>) returns (tree: Ptr, i: int,
        ghost p': Path)
      requires Valid() && PathsOk(at, book.vals) && p in at && start == at[p]
      requires Listed(order, book.vals, from, p + [16])
      ensures tree != NULL ==> p' in at && tree == at[p'] && 0 <= i < 16 && Listed(order, book.vals, from, p' + [i])
      ensures tree != NULL ==> Ahead(at, p' + [i]) == Ahead(at, p + [16]) && |p'| < |p|
      ensures tree == NULL ==> Ascending(order) && forall q :: q in order <==> q in book.vals && !Lex(q, from)
    {
      hide Mid, Listed, Ahead, PathsOk, Lex, Spelled;
      tree, i, p' := start, 16, p;
      Leaving(heap, at, book, order, from, p');
      i := heap[tree].index + 1;
      tree := heap[tree].parent;
      if p' != [] { p' := p'[..|p'| - 1]; }
      while tree != NULL && i > 15
        invariant tree != NULL ==>
          p' in at && tree == at[p'] && 0 <= i <= 16 && Listed(order, book.vals, from, p' + [i])
        invariant tree != NULL ==> Ahead(at, p' + [i]) == Ahead(at, p + [16]) && |p'| < |p|
        invariant tree == NULL ==> Ascending(order) && forall q :: q in order <==> q in book.vals && !Lex(q, from)
        decreases tree != NULL, |p'|
      {
        Leaving(heap, at, book, order, from, p');
        i := heap[tree].index + 1;
        tree := heap[tree].parent;
        if p' != [] { p' := p'[..|p'| - 1]; }
      }
    }

    /** The inner loop of xtree_clear: down to the leftmost leaf that is left. */
    method Leaf(start: Ptr, slot: int, ghost p0: Path) returns (tree: Ptr, ghost p: Path)
      requires Standing(heap, at, book) && p0 in at && start == at[p0] && 0 <= slot <= 16 && LeftGone(at, p0, slot)
      ensures p in at && tree == at[p] && Fans(at.Keys, p) == {} && LeftGone(at, p, 0)
    {
      hide Standing, LeftGone, Fans, Subtree;
      tree, p := start, p0;
      var i := slot;
      while i < 16
        invariant 0 <= i <= 16 && p in at && tree == at[p] && LeftGone(at, p, i)
        decreases Subtree(at, p), 16 - i
      {
        StandingAt(heap, at, book, p);
        if heap[tree].child[i] == NULL {
          SlotEmpty(heap, at, book, p, i);
          StepRight(at, p, i);
          i := i + 1;
        } else {
          Deeper(at, p, i);
          StepDown(at, p, i);
          tree := heap[tree].child[i];
          p := p + [i];
          i := 0;
          StandingAt(heap, at, book, p);
          if heap[tree].branch == 0 { return; }
        }
      }
      PastLast(at, p);
      FirstSlot(at, p);
    }

    /** Freeing a leaf: its parent loses a branch, and its value, if it has one, is handed out. */
    method FreeLeaf(temp: Ptr, tree: Ptr, slot: int, cleared: seq<Val>, ghost p: Path, ghost gone: seq<Path>)
      returns (cleared': seq<Val>, ghost gone': seq<Path>)
      requires Placed() && root in heap && Standing(heap, at, book) && NonZero(book.vals)
      requires p in at && p != [] && temp == at[p] && Fans(at.Keys, p) == {}
      requires p[..|p| - 1] in at && tree == at[p[..|p| - 1]] && slot == p[|p| - 1]
      requires Handed(at, book.vals, cleared, gone) && heap[root].route == |book.held| - |gone|
      modifies `heap, `at
      ensures Placed() && root in heap && Standing(heap, at, book) && at == old(at) - {p}
      ensures Handed(at, book.vals, cleared', gone') && heap[root].route == |book.held| - |gone'|
    {
      hide Standing, Fans, Handed;
      StandingRoot(heap, at, book);
      StandingAt(heap, at, book, p);
      Freed(heap, at, book, p);
      HandMore(at, book.vals, cleared, gone, p);
      RootStays(at, p);
      gone' := if heap[temp].mapping != 0 then gone + [p] else gone;
      ghost var h1 := Without(heap, temp, tree, slot);
      cleared' := Release(temp, tree, slot, cleared);
      Recounted(h1, at - {p}, book, root, heap[root].route);
      at := at - {p};
    }

    /** The writes of it. */
    method Release(temp: Ptr, tree: Ptr, slot: int, cleared: seq<Val>) returns (cleared': seq<Val>)
      requires root in heap && temp in heap && tree in heap && temp != tree && temp != root
      requires 0 <= slot < |heap[tree].child|
      modifies `heap
      ensures cleared' == if old(heap)[temp].mapping != 0 then cleared + [old(heap)[temp].mapping] else cleared
      ensures root in heap && heap[root].route == old(heap)[root].route - if old(heap)[temp].mapping != 0 then 1 else 0
      ensures root in Without(old(heap), temp, tree, slot)
      ensures heap == Without(old(heap), temp, tree,
          slot)[root := Without(old(heap), temp, tree, slot)[root].(route := heap[root].route)]
    {
      cleared' := cleared;
      heap := heap[tree := heap[tree].(branch := heap[tree].branch - 1)];
      if heap[temp].mapping != 0 {
        heap := heap[root := heap[root].(route := heap[root].route - 1)];
        cleared' := cleared' + [heap[temp].mapping];
      }
      heap := heap - {temp};
      heap := heap[tree := heap[tree].(child := heap[tree].child[slot := NULL])];
    }

    /** The cursor of xtree_clear, and what was handed out so far. */
    ghost predicate Sweeping(tree: Ptr, i: int, cleared: seq<Val>, p: Path, gone: seq<Path>)
      reads this
    {
      && Placed() && root in heap && Standing(heap, at, book) && NonZero(book.vals)
      && p in at && tree == at[p] && 0 <= i <= 16 && LeftGone(at, p, i)
      && Handed(at, book.vals, cleared, gone) && heap[root].route == |book.held| - |gone|
    }

    /** One turn of the outer loop. */
    method SweepOne(from: Ptr, slot: int, cleared: seq<Val>, ghost p: Path, ghost gone: seq<Path>)
      returns (tree: Ptr, i: int, cleared': seq<Val>, ghost p': Path, ghost gone': seq<Path>)
      requires Sweeping(from, slot, cleared, p, gone) && root in heap && heap[root].branch > 0
      modifies `heap, `at
      ensures Sweeping(tree, i, cleared', p', gone') && tree != NULL && |at| < |old(at)|
    {
      hide Standing, LeftGone, Fans, Handed, NonZero;
      StandingAt(heap, at, book, []);
      tree, p' := Leaf(from, slot, p);
      StandingAt(heap, at, book, p');
      i := heap[tree].index + 1;
      var temp := tree;
      tree := heap[tree].parent;
      cleared', gone' := cleared, gone;
      if heap[temp].branch == 0 {
        StepUp(at, p', 0);
        cleared', gone' := FreeLeaf(temp, tree, i - 1, cleared, p', gone);
        p' := p'[..|p'| - 1];
        StandingAt(heap, at, book, p');
      }
    }

    /** The loops of xtree_clear. */
    method ClearNodes() returns (cleared: seq<Val>, ghost gone: seq<Path>)
      requires Valid()
      modifies `heap, `at
      ensures Placed() && root in heap && Standing(heap, at, book) && Handed(at, book.vals, cleared, gone)
      ensures heap[root].branch == 0 && heap[root].route == |book.held| - |gone|
    {
      hide Inv, Spelled, Standing, LeftGone, Handed, NonZero;
      InvStands(heap, at, book);
      cleared := [];
      gone := [];
      var tree, i := root, 0;
      ghost var p: Path := [];
      NothingLeft(at);
      StandingAt(heap, at, book, []);
      while tree != NULL && heap[root].branch > 0
        invariant Sweeping(tree, i, cleared, p, gone) && tree != NULL && root in heap
        decreases |at|
      {
        tree, i, cleared, p, gone := SweepOne(tree, i, cleared, p, gone);
      }
      StandingAt(heap, at, book, []);
    }

    /** xtree_clear: every value is handed out once, and only the root is left. Its count of keys is
        zero again exactly when no addition was repeated or without a value. */
    method Clear() returns (cleared: seq<Val>, ghost keys: seq<Bytes>)
      requires Valid()
      modifies `heap, `at, `book, `contents, `calls
      ensures contents == map[] && calls == map[] && at == map[[] := root]
      ensures root in heap && heap[root].route == |old(calls)| - |old(contents)|
      ensures Valid() <==> |old(calls)| == |old(contents)|
      ensures |cleared| == |keys| && forall i ::
          0 <= i < |keys| ==> keys[i] in old(contents) && cleared[i] == old(contents)[keys[i]]
      ensures forall k :: k in old(contents) ==> k in keys
      ensures forall i, j :: 0 <= i < j < |keys| ==> keys[i] != keys[j]
    {
      hide Inv, Spelled, Standing, Handed, Nib;
      ghost var gone;
      cleared, gone := ClearNodes();
      keys := ClearEnds(heap, at, book, contents, calls, cleared, gone);
      book, contents, calls := Book(map[], map[]), map[], map[];
    }
  }

  /** 2^64 */
  const WORD := 0x1_0000_0000_0000_0000

  /** The limit of which `count` is left with `out` listed. */
  function Limit(count: int, out: seq<Ptr>): int { (count + |out|) % WORD }

  lemma LimitEnds(count: int, out: seq<Ptr>)
    requires 0 <= count < WORD
    ensures count == 0 ==> Limit(count, out) == |out| % WORD
    ensures out == [] ==> Limit(count, out) == count
  {
  }

  lemma Spend(count: int, out: seq<Ptr>, x: Ptr)
    requires 0 <= count < WORD
    ensures Limit((count + WORD - 1) % WORD, out + [x]) == Limit(count, out)
    ensures |out| % WORD == (count + WORD - 1) % WORD ==> (|out| + 1) % WORD == count
  {
    var n := |out|;
    if count == 0 {
      assert (WORD - 1 + n + 1) % WORD == n % WORD;
    } else {
      assert (count + WORD - 1) % WORD == count - 1;
    }
    if n % WORD == (count + WORD - 1) % WORD { assert (n + 1) % WORD == (n % WORD + 1) % WORD; }
  }

  /** A run that loses a value: a key is added, one it continues is deleted, and a search for the
      first one ends nowhere although its value was never deleted. */
  method DeletedPrefix(key: Bytes, rest: Bytes, v: Val) returns (t: Trie)
    requires key != [] && rest != [] && v != 0
    ensures fresh(t) && t.contents == map[key + rest := v] && Reach(t.heap, t.root, Nib(key + rest)) == NULL
  {
    hide Nib, Reach, Inv, Spelled, Called, Owned, Continuing, TookBack;
    t := new Trie();
    ghost var s := t.stamp;
    t.Add(key + rest, v);
    LoneCall(t.calls, s, key, rest);
    KeyGone(t.contents, key);
    var _ := t.Del(key);
    NibPrefix(key, key + rest);
    CutBehind(t.heap, t.root, Nib(key), Nib(key + rest)[|Nib(key)|..]);
    PrefixSplits(Nib(key), Nib(key + rest));
  }

  lemma LoneCall(calls: map<nat, Bytes>, s: nat, key: Bytes, rest: Bytes)
    requires calls == map[s := key + rest] && rest != []
    ensures !Owned(calls, key) && |Continuing(calls, key)| == 1
  {
    assert Continuing(calls, key) == {s};
    assert |key + rest| != |key|;
  }

  lemma NoneContinues(calls: map<nat, Bytes>, key: Bytes)
    requires !exists s :: s in calls && key <= calls[s]
    ensures Owned(calls, key) && TookBack(calls, calls, key)
  {
    assert Continuing(calls, key) == {};
  }

  lemma KeyGone(contents: map<Bytes, Val>, key: Bytes)
    requires key !in contents
    ensures contents - {key} == contents
  {
  }

  lemma PrefixSplits(p: Path, q: Path)
    requires Prefix(p, q)
    ensures q == p + q[|p|..]
  {
  }

  /** An addition of the key can be taken back, or nothing goes through it. */
  ghost predicate Owned(calls: map<nat, Bytes>, key: Bytes) {
    (exists s :: s in calls && calls[s] == key) || Continuing(calls, key) == {}
  }

  ghost predicate TookBack(calls: map<nat, Bytes>, calls': map<nat, Bytes>, key: Bytes) {
    if Continuing(calls, key) == {} then calls' == calls
    else exists s :: s in calls && calls[s] == key && calls' == calls - {s}
  }

  /** What the first writes of a deletion mean for the record. */
  lemma Record(h: Heap, at: map<Path, Ptr>, contents: map<Bytes, Val>, calls: map<nat, Bytes>, book: Book,
      key: Bytes) returns (book': Book, calls': map<nat, Bytes>)
    requires Inv(h, at, book) && Spelled(contents, book.vals) && Called(calls, book.held) && key != []
    requires Nib(key) in at
    ensures var k := Nib(key);
      && k != [] && [] in at && at[[]] in h && at[k] in h && at[k] != at[[]] && h[at[k]].mapping == Get(book.vals, k)
      && h[at[k]].parent in h && h[at[k]].parent != at[k]
      && Spelled(contents - {key}, book'.vals) && Called(calls', book'.held)
      && Climbing(Owned(calls, key), |Continuing(calls, key)| == 1, |calls| - 1,
          Cleared(h, at[[]], at[k], h[at[k]].parent), at, book', k, |k|)
      && (if Owned(calls, key) then TookBack(calls, calls', key) else calls' == calls)
      && (forall s :: s in calls' ==> s in calls)
  {
    hide Mid, Spelled, Called, Chain, Through, Continuing, Nib;
    var k := Nib(key);
    ChainStart(h, at, book, k);
    InjectiveIn(h, at, book);
    RootApart(at, k);
    MappingIs(h, at, book, k);
    SpelledDrop(contents, book.vals, key);
    ContinuingThrough(calls, book, key);
    RootTotal(h, at, calls, book);
    ThroughNode(h, at, book, k);
    assert k[..|k|] == k;
    if Owned(calls, key) {
      var s :| s in calls && calls[s] == key;
      HeldPath(calls, book.held, s);
      StartDel(h, at, book, s, k);
      CalledDrop(calls, book.held, s);
      book', calls' := TakenBack(book, s, k), calls - {s};
    } else {
      NotHeld(calls, book, key);
      book', calls' := book, calls;
    }
  }

  lemma Climbed(owned: bool, lone: bool, total: int, h: Heap, at: map<Path, Ptr>, calls: map<nat, Bytes>, book: Book,
      k: Path)
    requires Climbing(owned, lone, total, h, at, book, k, 0) && k != [] && Called(calls, book.held)
    requires !owned ==> total == |calls| - 1
    ensures [] in at && at[[]] in h && (Inv(h, at, book) <==> owned)
    ensures !owned ==> h[at[[]]].route == |calls| - 1 && (lone ==> Reach(h, at[[]], k) == NULL)
  {
    hide Mid, Inv;
    assert k[..0] == [] && k[0..] == k;
    if owned { FinishDel(h, at, book, k); } else if Inv(h, at, book) { RootTotal(h, at, calls, book); }
  }

  lemma HeldPath(calls: map<nat, Bytes>, held: map<nat, Path>, s: nat)
    requires Called(calls, held) && s in calls
    ensures s in held && held[s] == Nib(calls[s])
  {
  }

  lemma NotHeld(calls: map<nat, Bytes>, book: Book, key: Bytes)
    requires Called(calls, book.held) && Backed(book) && !exists s :: s in calls && calls[s] == key
    ensures Nib(key) !in book.vals && book.vals - {Nib(key)} == book.vals
  {
    hide Nib;
    if Nib(key) in book.vals {
      var s :| s in book.held && book.held[s] == Nib(key);
      NibInjective(calls[s], key);
    }
  }

  lemma RootTotal(h: Heap, at: map<Path, Ptr>, calls: map<nat, Bytes>, book: Book)
    requires Inv(h, at, book) && Called(calls, book.held) && [] in at
    ensures at[[]] in h && h[at[[]]].route == |calls| && Backed(book)
  {
    RootCounts(h, at, book);
    SameStamps(calls, book.held);
  }

  lemma ThroughNode(h: Heap, at: map<Path, Ptr>, book: Book, k: Path)
    requires Inv(h, at, book) && k in at && k != []
    ensures Through(book, k) != {}
  {
    assert Wanted(book, [], 0, k);
  }

  lemma AddedIs(book: Book, s: nat, k: Path, v: Val)
    ensures Added(book, s, k, v).vals == Put(book.vals, k, v) && Added(book, s, k, v).held == book.held[s := k]
  {
  }

  lemma SameStamps(calls: map<nat, Bytes>, held: map<nat, Path>)
    requires Called(calls, held)
    ensures calls.Keys == held.Keys && |calls| == |held|
  {
    assert |calls| == |calls.Keys| && |held| == |held.Keys|;
  }

  /** The listed nodes are those of the listed paths. */
  ghost predicate Points(at: map<Path, Ptr>, out: seq<Ptr>, order: seq<Path>) {
    |out| == |order| && forall i :: 0 <= i < |order| ==> order[i] in at && out[i] == at[order[i]]
  }

  /** The listed nodes are those of the listed keys, and hold their values. */
  ghost predicate NodesOf(h: Heap, at: map<Path, Ptr>, contents: map<Bytes, Val>, out: seq<Ptr>, keys: seq<Bytes>) {
    |out| == |keys| && forall i :: 0 <= i < |keys| ==>
      && Nib(keys[i]) in at && out[i] == at[Nib(keys[i])] && keys[i] in contents
      && out[i] in h && h[out[i]].mapping == contents[keys[i]]
  }

  lemma NodesListed(h: Heap, at: map<Path, Ptr>, contents: map<Bytes, Val>, book: Book, out: seq<Ptr>,
      keys: seq<Bytes>, order: seq<Path>)
    requires Inv(h, at, book) && Spelled(contents, book.vals) && Points(at, out, order) && |keys| == |order|
    requires forall i :: 0 <= i < |keys| ==> keys[i] in contents && Nib(keys[i]) == order[i]
    ensures NodesOf(h, at, contents, out, keys)
  {
    hide Mid, Nib, Spelled;
    forall i | 0 <= i < |keys| ensures order[i] in at && out[i] in h && h[out[i]].mapping == contents[keys[i]] {
      MappingIs(h, at, book, order[i]);
      SpelledLookup(contents, book.vals, keys[i]);
    }
  }

  lemma NibEmpty()
    ensures Nib([]) == []
  {
  }

  lemma SmallerSet(a: set<Path>, b: set<Path>)
    requires a <= b
    ensures |a| <= |b| && (a < b ==> |a| < |b|)
  {
    assert b == a + (b - a);
    assert a < b ==> b - a != {};
  }

  /** A value in a node that one addition goes through is the only one there and below. */
  lemma StoredValues(h: Heap, at: map<Path, Ptr>, book: Book, p: Path)
    requires Inv(h, at, book) && p in at
    ensures Get(book.vals, p) != 0 <==> p in book.vals
    ensures at[p] in h
    ensures p in book.vals && h[at[p]].route == 1 ==> forall q :: q in book.vals && Prefix(p, q) ==> q == p
  {
    assert NodeOk(h, at, book, [], 1, 0, p);
    var t := Through(book, p);
    if p in book.vals && h[at[p]].route == 1 {
      var s :| s in book.held && book.held[s] == p;
      forall q | q in book.vals && Prefix(p, q) ensures q == p {
        var r :| r in book.held && book.held[r] == q;
        assert {s, r} <= t;
        if s != r { OneMore({s}, {s, r}, r, true); SubsetSize({s, r}, t); }
      }
    }
  }

  lemma SubsetSize(a: set<nat>, b: set<nat>)
    requires a <= b
    ensures |a| <= |b|
  {
    assert b == a + (b - a);
  }

  /** What a node knows about its way up. */
  lemma Leaving(h: Heap, at: map<Path, Ptr>, book: Book, order: seq<Path>, from: Path, p: Path)
    requires Inv(h, at, book) && PathsOk(at, book.vals) && p in at && Listed(order, book.vals, from, p + [16])
    ensures at[p] in h && (p == [] ==>
        h[at[p]].parent == NULL && Ascending(order) && forall q :: q in order <==> q in book.vals && !Lex(q, from))
    ensures p != [] ==> var u := p[..|p| - 1];
      && u in at && h[at[p]].parent == at[u] && at[u] != NULL && h[at[p]].index == p[|p| - 1] && 0 <= p[|p| - 1] < 16
      && Listed(order, book.vals, from, u + [p[|p| - 1] + 1]) && Ahead(at, u + [p[|p| - 1] + 1]) == Ahead(at, p + [16])
  {
    hide Lex;
    assert NodeOk(h, at, book, [], 1, 0, p);
    if p == [] {
      LeaveRoot(at, book.vals, order, from);
    } else {
      LeaveNode(at, book.vals, order, from, p);
      ParentIs(h, at, book, [], 1, 0, p);
      MidFacts(h, at, book, [], 1, 0);
    }
  }

  /** Memory without a leaf. */
  function Without(h: Heap, temp: Ptr, tree: Ptr, slot: int): Heap
    requires tree in h && 0 <= slot < |h[tree].child|
  {
    (h - {temp})[tree := h[tree].(child := h[tree].child[slot := NULL], branch := h[tree].branch - 1)]
  }

  lemma SlotEmpty(h: Heap, at: map<Path, Ptr>, book: Book, p: Path, i: int)
    requires Standing(h, at, book) && p in at && 0 <= i < 16 && Ask(at, p + [i]) == NULL
    ensures p + [i] !in at
  {
    if p + [i] in at { StandingAt(h, at, book, p + [i]); }
  }

  /** When the root has no branch left: the tree is an empty one again exactly when every addition
      that was not taken back had a value to hand out. */
  lemma ClearEnds(h: Heap, at: map<Path, Ptr>, book: Book, contents: map<Bytes, Val>, calls: map<nat, Bytes>,
      cleared: seq<Val>, gone: seq<Path>)
    returns (keys: seq<Bytes>)
    requires Standing(h, at, book) && Spelled(contents, book.vals) && Called(calls, book.held)
    requires Handed(at, book.vals, cleared, gone)
    requires [] in at && at[[]] in h && h[at[[]]].branch == 0 && h[at[[]]].route == |book.held| - |gone|
    ensures at == map[[] := at[[]]] && h[at[[]]].route == |calls| - |contents| && Spelled(map[], map[])
    ensures Inv(h, at, Book(map[], map[])) <==> |calls| == |contents|
    ensures |cleared| == |keys| && forall i ::
        0 <= i < |keys| ==> keys[i] in contents && cleared[i] == contents[keys[i]]
    ensures forall k :: k in contents ==> k in keys
    ensures forall i, j :: 0 <= i < j < |keys| ==> keys[i] != keys[j]
  {
    hide Standing, Spelled, Handed, Fans, Inv;
    StandingAt(h, at, book, []);
    OnlyRoot(h, at, book);
    forall q | q in book.vals ensures |q| >= 2 && q !in at { StoredLength(contents, book.vals, q); }
    NoMoreThanStored(at, book.vals, cleared, gone);
    EmptyAgain(h, at, book, calls);
    keys := GoneKeys(at, contents, book.vals, cleared, gone);
    KeysCounted(contents, keys);
    SameStamps(calls, book.held);
    NothingSpelled();
  }

  lemma {:induction false} KeysCounted(contents: map<Bytes, Val>, keys: seq<Bytes>)
    requires (forall i :: 0 <= i < |keys| ==> keys[i] in contents) && (forall k :: k in contents ==> k in keys)
    requires forall i, j :: 0 <= i < j < |keys| ==> keys[i] != keys[j]
    ensures |contents| == |keys|
    decreases |keys|
  {
    if keys == [] {
      assert contents == map[];
    } else {
      var n := |keys| - 1;
      var front, c' := keys[..n], contents - {keys[n]};
      forall k | k in c' ensures k in front {
        var i :| 0 <= i < |keys| && keys[i] == k;
        assert front[i] == k;
      }
      KeysCounted(c', front);
      assert contents.Keys == c'.Keys + {keys[n]};
      assert |contents| == |contents.Keys| && |c'| == |c'.Keys|;
    }
  }

  lemma RootStays(at: map<Path, Ptr>, p: Path)
    requires Injective(at) && [] in at && p in at && p != []
    ensures at[p] != at[[]]
  {
  }

  lemma NothingLeft(at: map<Path, Ptr>)
    ensures LeftGone(at, [], 0)
  {
  }

  lemma FirstSlot(at: map<Path, Ptr>, p: Path)
    requires LeftGone(at, p, 16)
    ensures LeftGone(at, p, 0)
  {
  }

  lemma NothingSpelled()
    ensures Spelled(map[], map[])
  {
  }

  lemma ParentIs(h: Heap, at: map<Path, Ptr>, book: Book, k: Path, lo: int, d: int, p: Path)
    requires Mid(h, at, book, k, lo, d) && p in at && p != []
    ensures p[..|p| - 1] in at && at[p] in h && h[at[p]].parent == at[p[..|p| - 1]] && at[p[..|p| - 1]] in h
    ensures at[p] != at[p[..|p| - 1]]
  {
    MidFacts(h, at, book, k, lo, d);
    assert NodeOk(h, at, book, k, lo, d, p);
    ApartByLength(at, p);
  }

  lemma EmptyTrie(root: Ptr)
    requires root != NULL
    ensures Inv(map[root := Cell(Blank(), 0, NULL, 0, 0, 0, 0)], map[[] := root], Book(map[], map[]))
  {
    var h, at, none := map[root := Cell(Blank(), 0, NULL, 0, 0, 0, 0)], map[[] := root], Book(map[], map[]);
    assert Through(none, []) == {} && Fans(at.Keys, []) == {} && Twigs(none, []) == {};
    assert NodeOk(h, at, none, [], 1, 0, []);
    forall p ensures p in at <==> Wanted(none, [], 0, p) { assert Through(none, p) == {}; }
  }

  lemma ChildIs(h: Heap, at: map<Path, Ptr>, book: Book, k: Path, lo: int, d: int, p: Path, i: int)
    requires Mid(h, at, book, k, lo, d) && p in at && 0 <= i < 16
    ensures at[p] in h && |h[at[p]].child| == 16 && h[at[p]].child[i] == Ask(at, p + [i])
    ensures p + [i] in at ==> at[p + [i]] != NULL && at[p + [i]] in h
  {
    assert NodeOk(h, at, book, k, lo, d, p);
    if p + [i] in at { assert NodeOk(h, at, book, k, lo, d, p + [i]); }
  }

  lemma MappingIs(h: Heap, at: map<Path, Ptr>, book: Book, p: Path)
    requires Inv(h, at, book) && p in at
    ensures at[p] in h && h[at[p]].mapping == Get(book.vals, p)
  {
    assert NodeOk(h, at, book, [], 1, 0, p);
  }

  lemma StoredHasNode(h: Heap, at: map<Path, Ptr>, book: Book, p: Path)
    requires Inv(h, at, book)
    ensures p in book.vals ==> p in at
    ensures p in at ==> at[p] != NULL
  {
    if p in at { assert NodeOk(h, at, book, [], 1, 0, p); } else { assert !Wanted(book, [], 0, p); }
    if p in book.vals { ValueHeld(book, p); }
  }

  /** A path whose beginning has no node has none. */
  lemma GoneBelow(h: Heap, at: map<Path, Ptr>, book: Book, k: Path, d: nat)
    requires Inv(h, at, book) && d <= |k| && Ask(at, k[..d]) == NULL
    ensures Ask(at, k) == NULL
  {
    hide Mid;
    MidFacts(h, at, book, [], 1, 0);
    NoneBehind(h, at, book, k, d);
  }
}
