/** The string table of src/xnet/xtable.c: an array of bucket heads, the list of all nodes, and
    one tree for all the nodes that are not heads. */
module Table {
  import opened AvlShape
  import opened AvlTurn
  import opened AvlErase
  import opened AvlOrder
  import opened TableList
  import opened TableKeys
  import Avl

  /** The nodes that are not the head of their bucket. */
  ghost function Others(bucket: Ptr -> int, table: seq<Ptr>, s: seq<Ptr>): set<Ptr> {
    set x | x in s && x != Head(table, bucket(x))
  }

  /** The list, the heads, the counts kept at the heads and the nodes in the tree agree. */
  ghost predicate Shape(bucket: Ptr -> int, table: seq<Ptr>, lens: map<Ptr, int>, nodes: set<Ptr>, s: seq<Ptr>) {
    && Once(s) && Runs(bucket, table, s) && nodes == Others(bucket, table, s)
    && (forall x :: x in s ==> 0 <= bucket(x) < |table|)
    && (forall b ::
          0 <= b < |table| && table[b] != NULL ==> table[b] in lens && lens[table[b]] == Count(bucket, s, b) - 1)
  }

  ghost predicate Unique(keyOf: Ptr -> Key, s: seq<Ptr>) {
    forall i, j :: 0 <= i < j < |s| ==> keyOf(s[i]) != keyOf(s[j])
  }

  lemma ShapeFirst(bucket: Ptr -> int, table: seq<Ptr>, lens: map<Ptr, int>, nodes: set<Ptr>, s: seq<Ptr>, x: Ptr)
    requires Shape(bucket, table, lens, nodes, s) && x !in s && x !in {NULL, SENT}
    requires 0 <= bucket(x) < |table| && table[bucket(x)] == NULL && Once(Inserted(s, -1, x))
    ensures Shape(bucket, table[bucket(x) := x], lens[x := 0], nodes, Inserted(s, -1, x))
  {
    var b := bucket(x);
    var t', s' := table[b := x], Inserted(s, -1, x);
    AddFirst(bucket, table, s, x);
    InsertedExactly(s, -1, x);
    EmptyBucket(bucket, table, s, b);
    forall c | 0 <= c < |t'| && t'[c] != NULL ensures t'[c] in lens[x := 0]
        && lens[x := 0][t'[c]] == Count(bucket, s', c) - 1 {
      InsertCount(bucket, s, -1, x, c);
    }
    hide Runs, Count;
    forall y ensures y in Others(bucket, t', s') <==> y in nodes {
      if y in s { BucketHasHead(bucket, table, s, y); }
    }
  }

  lemma EmptyBucket(bucket: Ptr -> int, table: seq<Ptr>, s: seq<Ptr>, b: int)
    requires Runs(bucket, table, s) && Head(table, b) == NULL
    ensures Count(bucket, s, b) == 0
  {
    CountZero(bucket, s, b);
    forall x | x in s ensures bucket(x) != b { BucketHasHead(bucket, table, s, x); }
  }

  lemma BucketHasHead(bucket: Ptr -> int, table: seq<Ptr>, s: seq<Ptr>, x: Ptr)
    requires Runs(bucket, table, s) && x in s
    ensures Head(table, bucket(x)) != NULL && 0 <= bucket(x) < |table|
  {
    var i :| 0 <= i < |s| && s[i] == x;
    assert Led(bucket, table, s, i);
  }

  lemma ShapeBehind(bucket: Ptr -> int, table: seq<Ptr>, lens: map<Ptr, int>, nodes: set<Ptr>, s: seq<Ptr>, i: int,
      x: Ptr)
    requires Shape(bucket, table, lens, nodes, s) && x !in s && x !in {NULL, SENT} && 0 <= i < |s|
        && Once(Inserted(s, i, x))
    requires 0 <= bucket(x) < |table| && s[i] == table[bucket(x)] && s[i] in lens
    ensures Shape(bucket, table, lens[s[i] := lens[s[i]] + 1], nodes + {x}, Inserted(s, i, x))
  {
    var b := bucket(x);
    var s', l' := Inserted(s, i, x), lens[s[i] := lens[s[i]] + 1];
    AddBehind(bucket, table, s, i, x);
    InsertedExactly(s, i, x);
    forall c | 0 <= c < |table| && table[c] != NULL ensures table[c] in l'
        && l'[table[c]] == Count(bucket, s', c) - 1 {
      InsertCount(bucket, s, i, x, c);
    }
    hide Count;
    assert Others(bucket, table, s') == nodes + {x};
  }

  /** A node that is not a head leaves. */
  lemma ShapeInner(bucket: Ptr -> int, table: seq<Ptr>, lens: map<Ptr, int>, nodes: set<Ptr>, s: seq<Ptr>, i: int)
    requires Shape(bucket, table, lens, nodes, s) && 0 <= i < |s| && s[i] in nodes
    ensures 0 <= bucket(s[i]) < |table| && table[bucket(s[i])] in lens
    ensures var h := table[bucket(s[i])];
        Once(Dropped(s, i)) ==> Shape(bucket, table, lens[h := lens[h] - 1], nodes - {s[i]}, Dropped(s, i))
  {
    BucketHasHead(bucket, table, s, s[i]);
    var b := bucket(s[i]);
    var s', l' := Dropped(s, i), lens[table[b] := lens[table[b]] - 1];
    DropInner(bucket, table, s, i);
    DroppedExactly(s, i);
    forall c | 0 <= c < |table| && table[c] != NULL ensures table[c] in l'
        && l'[table[c]] == Count(bucket, s', c) - 1 {
      DropCount(bucket, s, i, c);
    }
    hide Count, Runs;
    assert Others(bucket, table, s') == nodes - {s[i]};
  }

  /** A head leaves. */
  lemma ShapeHead(bucket: Ptr -> int, table: seq<Ptr>, lens: map<Ptr, int>, nodes: set<Ptr>, s: seq<Ptr>, i: int)
    requires Shape(bucket, table, lens, nodes, s) && 0 <= i < |s| && Once(Dropped(s, i))
    requires 0 <= bucket(s[i]) < |table| && s[i] == table[bucket(s[i])] && s[i] in lens
    ensures lens[s[i]] == 0 ==> Shape(bucket, table[bucket(s[i]) := NULL], lens, nodes, Dropped(s, i))
    ensures lens[s[i]] != 0 ==> i + 1 < |s| && s[i + 1] in nodes
    ensures lens[s[i]] != 0 ==>
      Shape(bucket, table[bucket(s[i]) := s[i + 1]], lens[s[i + 1] := lens[s[i]] - 1], nodes - {s[i + 1]},
          Dropped(s, i))
  {
    var b := bucket(s[i]);
    SecondInRun(bucket, table, s, i);
    CountZero(bucket, s, b);
    var heir := if lens[s[i]] == 0 then NULL else s[i + 1];
    var t', s' := table[b := heir], Dropped(s, i);
    var l' := if heir == NULL then lens else lens[heir := lens[s[i]] - 1];
    DropHead(bucket, table, s, i, heir);
    DroppedExactly(s, i);
    DropCount(bucket, s, i, b);
    forall c | 0 <= c < |t'| && t'[c] != NULL ensures t'[c] in l' && l'[t'[c]] == Count(bucket, s', c) - 1 {
      DropCount(bucket, s, i, c);
    }
    hide Count;
    HeadLeaves(bucket, table, s, i, heir);
  }

  lemma HeadLeaves(bucket: Ptr -> int, table: seq<Ptr>, s: seq<Ptr>, i: int, heir: Ptr)
    requires Once(s) && Runs(bucket, table, s) && 0 <= i < |s| && 0 <= bucket(s[i]) < |table|
        && s[i] == table[bucket(s[i])]
    requires if i + 1 < |s| && bucket(s[i + 1]) == bucket(s[i]) then heir == s[i + 1] else heir == NULL
    ensures Others(bucket, table[bucket(s[i]) := heir], Dropped(s, i)) == Others(bucket, table, s) - {heir}
    ensures heir != NULL ==> heir in Others(bucket, table, s)
  {
    var b := bucket(s[i]);
    DroppedExactly(s, i);
    if heir != NULL { assert s[i + 1] in s; }
    forall y ensures y in Others(bucket, table[b := heir], Dropped(s, i))
        <==> y in Others(bucket, table, s) - {heir} {
      if y in s && y != s[i] && bucket(y) == b && heir == NULL {
        var j :| 0 <= j < |s| && s[j] == y;
        RunFromHead(bucket, table, s, i, j);
      }
    }
  }

  type Val = int

  /** What the table maps: the value of the one node with that key. */
  ghost predicate Maps(keyOf: Ptr -> Key, value: map<Ptr, Val>, s: seq<Ptr>, m: map<Key, Val>) {
    && (forall x :: x in s ==> x in value && keyOf(x) in m && m[keyOf(x)] == value[x])
    && (forall k :: k in m ==> exists x :: x in s && keyOf(x) == k)
  }

  lemma MapsInsert(keyOf: Ptr -> Key, value: map<Ptr, Val>, s: seq<Ptr>, m: map<Key, Val>, i: int, x: Ptr, v: Val)
    requires Maps(keyOf, value, s, m) && Unique(keyOf, s) && -1 <= i < |s| && x !in s && keyOf(x) !in m
    ensures Maps(keyOf, value[x := v], Inserted(s, i, x), m[keyOf(x) := v]) && Unique(keyOf, Inserted(s, i, x))
  {
    var s', m' := Inserted(s, i, x), m[keyOf(x) := v];
    UniqueInsert(keyOf, s, i, x);
    InsertedExactly(s, i, x);
    hide Unique, Inserted;
    forall k | k in m' ensures exists y :: y in s' && keyOf(y) == k {
      if k == keyOf(x) { assert x in s'; } else { var y :| y in s && keyOf(y) == k; assert y in s'; }
    }
  }

  lemma UniqueInsert(keyOf: Ptr -> Key, s: seq<Ptr>, i: int, x: Ptr)
    requires Unique(keyOf, s) && -1 <= i < |s| && forall y :: y in s ==> keyOf(y) != keyOf(x)
    ensures Unique(keyOf, Inserted(s, i, x))
  {
    var s' := Inserted(s, i, x);
    forall a, b | 0 <= a < b < |s'| ensures keyOf(s'[a]) != keyOf(s'[b]) {
      assert a == i + 1 || s'[a] == s[if a <= i then a else a - 1];
      assert b == i + 1 || s'[b] == s[if b <= i then b else b - 1];
    }
  }

  lemma MapsDrop(keyOf: Ptr -> Key, value: map<Ptr, Val>, s: seq<Ptr>, m: map<Key, Val>, i: int)
    requires Maps(keyOf, value, s, m) && Unique(keyOf, s) && Once(s) && 0 <= i < |s|
    ensures Maps(keyOf, value, Dropped(s, i), m - {keyOf(s[i])}) && Unique(keyOf, Dropped(s, i))
  {
    var s', m' := Dropped(s, i), m - {keyOf(s[i])};
    UniqueDrop(keyOf, s, i);
    DroppedExactly(s, i);
    hide Unique, Once, Dropped;
    forall k | k in m' ensures exists y :: y in s' && keyOf(y) == k {
      var y :| y in s && keyOf(y) == k;
      assert y in s';
    }
  }

  lemma UniqueDrop(keyOf: Ptr -> Key, s: seq<Ptr>, i: int)
    requires Unique(keyOf, s) && 0 <= i < |s|
    ensures Unique(keyOf, Dropped(s, i)) && forall y :: y in Dropped(s, i) ==> keyOf(y) != keyOf(s[i])
  {
    var s' := Dropped(s, i);
    forall a, b | 0 <= a < b < |s'| ensures keyOf(s'[a]) != keyOf(s'[b]) {
      assert s'[a] == s[if a < i then a else a + 1] && s'[b] == s[if b < i then b else b + 1];
    }
    forall a | 0 <= a < |s'| ensures keyOf(s'[a]) != keyOf(s[i]) { assert s'[a] == s[if a < i then a else a + 1]; }
  }

  lemma EmptyTable(bucket: Ptr -> int, keyOf: Ptr -> Key, table: seq<Ptr>)
    requires forall b :: 0 <= b < |table| ==> table[b] == NULL
    ensures Shape(bucket, table, map[], {}, []) && Linked(map[SENT := SENT], map[SENT := SENT], [])
    ensures Maps(keyOf, map[], [], map[]) && Unique(keyOf, [])
  {}

  lemma OthersListed(bucket: Ptr -> int, table: seq<Ptr>, lens: map<Ptr, int>, nodes: set<Ptr>, s: seq<Ptr>)
    requires Shape(bucket, table, lens, nodes, s)
    ensures forall x :: x in nodes ==> x in s
  {}

  lemma ShapeOnce(bucket: Ptr -> int, table: seq<Ptr>, lens: map<Ptr, int>, nodes: set<Ptr>, s: seq<Ptr>)
    requires Shape(bucket, table, lens, nodes, s)
    ensures Once(s) && SENT !in s && NULL !in s
  {}

  lemma NodesAfterAdd(t: Tree, t': Tree, i: nat, x: Ptr)
    requires i <= |Inorder(t)| && Inorder(t') == Inorder(t)[..i] + [x] + Inorder(t)[i..]
    ensures Nodes(t') == Nodes(t) + {x}
  {
    hide Nodes, Inorder;
    InorderNodes(t);
    InorderNodes(t');
    InsertedExactly(Inorder(t), i - 1, x);
    assert Inorder(t') == Inserted(Inorder(t), i - 1, x);
    forall y ensures y in Nodes(t') <==> y in Nodes(t) + {x} {}
  }

  /** The tree refuses a node exactly when its key is taken. */
  lemma NewInTree(cmp: (Ptr, Ptr) -> int, keyOf: Ptr -> Key, x: Ptr, s: seq<Ptr>)
    requires OrdersBy(cmp, keyOf)
    ensures (forall y :: y in s ==> cmp(x, y) != 0) <==> (forall y :: y in s ==> keyOf(y) != keyOf(x))
  {
    forall y | y in s ensures cmp(x, y) == 0 <==> keyOf(y) == keyOf(x) { OrderAt(cmp, keyOf, x, y); }
  }

  /** A key that is stored belongs to the head of its bucket or to a node in the tree. */
  lemma WhereKeyIs(keyOf: Ptr -> Key, bucket: Ptr -> int, table: seq<Ptr>, lens: map<Ptr, int>, value: map<Ptr, Val>,
      nodes: set<Ptr>, s: seq<Ptr>, m: map<Key, Val>, k: Key, b: int)
    requires Maps(keyOf, value, s, m) && Unique(keyOf, s) && Shape(bucket, table, lens, nodes, s) && 0 <= b < |table|
    requires forall x :: keyOf(x) == k ==> bucket(x) == b
    ensures k in m ==> table[b] != NULL && (keyOf(table[b]) == k || exists x :: x in nodes && keyOf(x) == k)
    ensures table[b] != NULL ==> table[b] in s && table[b] in value && table[b] in lens && table[b] !in nodes
    ensures table[b] != NULL && keyOf(table[b]) == k ==> k in m && m[k] == value[table[b]]
    ensures forall x :: x in nodes ==> x in s && x in value && keyOf(x) in m && m[keyOf(x)] == value[x]
  {
    hide Count, Unique, Once;
    if k in m {
      var x :| x in s && keyOf(x) == k;
      BucketHasHead(bucket, table, s, x);
      assert x == table[b] || x in nodes;
    }
  }

  /** What a search for `k` asks of a node. */
  function Probe(k: Key, keyOf: Ptr -> Key): Ptr -> int { y => Compare(k, keyOf(y)) }

  /** The strings after `node` was made with `k`. */
  function Named(keyOf: Ptr -> Key, node: Ptr, k: Key): Ptr -> Key { x => if x == node then k else keyOf(x) }

  function PlacedBy(slot: Key -> int, keyOf: Ptr -> Key): Ptr -> int { x => slot(keyOf(x)) }

  function OrderBy(keyOf: Ptr -> Key): (Ptr, Ptr) -> int { (x, y) => Compare(keyOf(x), keyOf(y)) }

  lemma OrderedBy(keyOf: Ptr -> Key)
    ensures OrdersBy(OrderBy(keyOf), keyOf) && TotalOrder(OrderBy(keyOf))
  {
    KeysAreOrdered(OrderBy(keyOf), keyOf);
  }

  lemma NamedKeeps(slot: Key -> int, keyOf: Ptr -> Key, node: Ptr, k: Key, bucket: Ptr -> int, s: seq<Ptr>)
    requires node !in s && forall x :: bucket(x) == slot(keyOf(x))
    ensures Named(keyOf, node, k)(node) == k
    ensures forall x :: x != node ==> Named(keyOf, node, k)(x) == keyOf(x)
    ensures forall x :: x in s ==> Named(keyOf, node, k)(x) == keyOf(x)
    ensures forall x :: x in s ==> PlacedBy(slot, Named(keyOf, node, k))(x) == bucket(x)
    ensures forall x :: PlacedBy(slot, Named(keyOf, node, k))(x) == slot(Named(keyOf, node, k)(x))
  {}

  /** The string of a node outside `s` is of no account. */
  lemma SortedSame(cmp: (Ptr, Ptr) -> int, cmp': (Ptr, Ptr) -> int, keyOf: Ptr -> Key, keyOf': Ptr -> Key,
      s: seq<Ptr>)
    requires OrdersBy(cmp, keyOf) && OrdersBy(cmp', keyOf') && Sorted(cmp, s)
    requires forall x :: x in s ==> keyOf'(x) == keyOf(x)
    ensures Sorted(cmp', s)
  {
    hide Compare;
    forall i, j | 0 <= i < j < |s| ensures cmp'(s[i], s[j]) < 0 {
      var x, y := s[i], s[j];
      assert x in s && y in s && cmp(x, y) < 0;
      OrderAt(cmp, keyOf, x, y);
      OrderAt(cmp', keyOf', x, y);
    }
  }

  lemma {:induction false} CountSame(bucket: Ptr -> int, bucket': Ptr -> int, s: seq<Ptr>, b: int)
    requires forall x :: x in s ==> bucket'(x) == bucket(x)
    ensures Count(bucket', s, b) == Count(bucket, s, b)
  {
    if s != [] {
      var x := s[0];
      assert bucket'(x) == bucket(x);
      CountSame(bucket, bucket', s[1..], b);
    }
  }

  lemma ShapeSame(bucket: Ptr -> int, bucket': Ptr -> int, table: seq<Ptr>, lens: map<Ptr, int>, nodes: set<Ptr>,
      s: seq<Ptr>)
    requires Shape(bucket, table, lens, nodes, s) && forall x :: x in s ==> bucket'(x) == bucket(x)
    ensures Shape(bucket', table, lens, nodes, s)
  {
    forall b | 0 <= b < |table| ensures Count(bucket', s, b) == Count(bucket, s, b) {
      CountSame(bucket, bucket', s, b);
    }
    forall i | 0 <= i < |s| ensures Led(bucket', table, s, i) { assert Led(bucket, table, s, i); }
    hide Count;
  }

  lemma MapsSame(keyOf: Ptr -> Key, keyOf': Ptr -> Key, value: map<Ptr, Val>, s: seq<Ptr>, m: map<Key, Val>)
    requires Maps(keyOf, value, s, m) && Unique(keyOf, s) && forall x :: x in s ==> keyOf'(x) == keyOf(x)
    ensures Maps(keyOf', value, s, m) && Unique(keyOf', s)
  {
    forall k | k in m ensures exists x :: x in s && keyOf'(x) == k { var x :| x in s && keyOf(x) == k; }
    forall i, j | 0 <= i < j < |s| ensures keyOf'(s[i]) != keyOf'(s[j]) {
      var x, y := s[i], s[j];
      assert x in s && y in s && keyOf(x) != keyOf(y);
    }
  }

  /** Every string has a bucket, and a node's bucket is that of its string. */
  ghost predicate Hashed(slot: Key -> int, keyOf: Ptr -> Key, bucket: Ptr -> int, size: nat) {
    (forall k :: 0 <= slot(k) < size) && (forall x :: bucket(x) == slot(keyOf(x)))
  }

  lemma HashedAt(slot: Key -> int, keyOf: Ptr -> Key, bucket: Ptr -> int, size: nat, x: Ptr)
    requires Hashed(slot, keyOf, bucket, size)
    ensures 0 <= slot(keyOf(x)) < size && bucket(x) == slot(keyOf(x))
  {}

  /** struct search_table. A node is its address; `slot` is the bucket the hash of a string
      selects, `keyOf` the string that stands at an address now, and `bucket` its bucket. */
  class Table {
    const slot: Key -> int
    var keyOf: Ptr -> Key
    var bucket: Ptr -> int
    const tree: Avl.Avl
    var table: seq<Ptr>
    var next: map<Ptr, Ptr>
    var prev: map<Ptr, Ptr>
    var listLen: map<Ptr, int>
    var value: map<Ptr, Val>
    var count: int
    ghost var list: seq<Ptr>
    ghost var contents: map<Key, Val>

    ghost predicate Valid()
      reads this, tree
    {
      && Hashed(slot, keyOf, bucket, |table|) && tree.Valid() && OrdersBy(tree.compare, keyOf)
      && Shape(bucket, table, listLen, Nodes(tree.tree), list)
      && Linked(next, prev, list)
      && Maps(keyOf, value, list, contents) && Unique(keyOf, list)
      && (forall x :: x in list ==> x in tree.heap)
      && count == |list|
    }

    /** search_table_init */
    constructor (size: nat, slot: Key -> int)
      requires forall k :: 0 <= slot(k) < size
      ensures Valid() && contents == map[] && fresh(tree) && this.slot == slot
    {
      hide Compare, Shape, Linked, Maps, Unique, TotalOrder, Whole, Sorted, OrdersBy, OrderBy;
      this.slot := slot;
      var unnamed: Ptr -> Key := _ => [0];
      keyOf, bucket := unnamed, PlacedBy(slot, unnamed);
      OrderedBy(unnamed);
      tree := new Avl.Avl(OrderBy(unnamed), map[]);
      table := seq(size, _ => NULL);
      next, prev := map[SENT := SENT], map[SENT := SENT];
      listLen, value, count := map[], map[], 0;
      list, contents := [], map[];
      new;
      InorderNodes(tree.tree);
      assert Nodes(tree.tree) == {};
      EmptyTable(bucket, keyOf, table);
    }

    /** What a search knows at the head of the bucket. */
    lemma BucketFacts(k: Key)
      requires Valid()
      ensures 0 <= slot(k) < |table|
      ensures k in contents ==>
        && table[slot(k)] != NULL
        && (keyOf(table[slot(k)]) == k || exists x :: x in Nodes(tree.tree) && keyOf(x) == k)
      ensures var h := table[slot(k)]; h != NULL ==> h in list && h in value && h in listLen && h !in Nodes(tree.tree)
      ensures var h := table[slot(k)]; h != NULL && keyOf(h) == k ==> k in contents && contents[k] == value[h]
      ensures forall x :: x in Nodes(tree.tree) ==>
          x in list && x in value && keyOf(x) in contents && contents[keyOf(x)] == value[x]
      ensures forall x :: x in Nodes(tree.tree) <==> x in Inorder(tree.tree)
      ensures Separates(Probe(k, keyOf), Inorder(tree.tree))
    {
      hide Compare, Shape, Linked, Maps, Unique, OrdersBy, Nodes, Inorder, Sorted, Whole;
      KeySeparates(tree.compare, keyOf, k, Inorder(tree.tree));
      InorderNodes(tree.tree);
      WhereKeyIs(keyOf, bucket, table, listLen, value, Nodes(tree.tree), list, contents, k, slot(k));
    }

    /** search_table_find */
    method Find(uuid: Key) returns (v: Val)
      requires Valid()
      ensures v == if uuid in contents then contents[uuid] else 0
    {
      hide Compare, Shape, Linked, Maps, Unique, OrdersBy, Nodes, Inorder, Sorted, Whole, Separates;
      var pos := slot(uuid);
      BucketFacts(uuid);
      if table[pos] != NULL {
        var c := BytesCompare(uuid, keyOf(table[pos]));
        CompareZero(uuid, keyOf(table[pos]));
        if |uuid| == |keyOf(table[pos])| && c == 0 {
          return value[table[pos]];
        } else {
          var found, _ := tree.Find(Probe(uuid, keyOf));
          if found != NULL {
            CompareZero(uuid, keyOf(found));
            return value[found];
          }
          forall x | x in Nodes(tree.tree) ensures keyOf(x) != uuid { CompareZero(uuid, keyOf(x)); }
        }
      }
      return 0;
    }
  
    /** A node between `at` and the one behind it. */
    method LinkBehind(node: Ptr, at: Ptr, ghost i: int)
      requires Linked(next, prev, list) && Once(list) && -1 <= i < |list| && at == At(list, i)
      requires node !in list && node !in {NULL, SENT}
      modifies `next, `prev
      ensures Linked(next, prev, Inserted(list, i, node)) && Once(Inserted(list, i, node))
    {
      hide Linked, Once;
      InsertLinks(next, prev, list, i, node);
      prev := prev[node := at];
      next := next[node := next[at]];
      prev := prev[next[node] := node];
      next := next[prev[node] := node];
    }

    method Unlink(node: Ptr, ghost i: int)
      requires Linked(next, prev, list) && Once(list) && 0 <= i < |list| && node == list[i]
      modifies `next, `prev
      ensures Linked(next, prev, Dropped(list, i)) && Once(Dropped(list, i))
    {
      hide Linked, Once;
      DropLinks(next, prev, list, i);
      var n, p := next[node], prev[node];
      prev := prev[n := p];
      next := next[p := n];
    }
  
    /** hnode_create: the memory of a node that is in no list and no tree takes a key. Whatever
        stood at that address before, another string of a node freed since included, is gone. */
    method Create(node: Ptr, uuid: Key)
      requires Valid() && node !in list && node !in {NULL, SENT}
      modifies `keyOf, `bucket, tree`heap, tree`compare
      ensures Valid() && node in tree.heap && keyOf(node) == uuid
      ensures forall x :: x != node ==> keyOf(x) == old(keyOf(x))
    {
      hide Compare, Shape, Linked, Maps, Unique, OrdersBy, Sorted, Whole, TotalOrder, Nodes, Inorder, Named, PlacedBy,
          OrderBy;
      ghost var nodes := Nodes(tree.tree);
      OthersListed(bucket, table, listLen, nodes, list);
      WholeElsewhere(tree.heap, tree.tree, node, Cell(NULL, NULL, NULL, 0), tree.root);
      InorderNodes(tree.tree);
      var names := Named(keyOf, node, uuid);
      var places, order := PlacedBy(slot, names), OrderBy(names);
      NamedKeeps(slot, keyOf, node, uuid, bucket, list);
      OrderedBy(names);
      SortedSame(tree.compare, order, keyOf, names, Inorder(tree.tree));
      ShapeSame(bucket, places, table, listLen, nodes, list);
      MapsSame(keyOf, names, value, list, contents);
      tree.heap := tree.heap[node := Cell(NULL, NULL, NULL, 0)];
      tree.compare := order;
      keyOf, bucket := names, places;
    }

    /** search_table_add: the first value of a key stays. */
    method Add(uuid: Key, v: Val, node: Ptr)
      requires Valid() && node !in list && node !in {NULL, SENT}
      modifies `keyOf, `bucket, tree`compare
      modifies `table, `next, `prev, `listLen, `value, `count, `list, `contents
      modifies tree`heap, tree`root, tree`count, tree`tree
      ensures Valid()
      ensures contents == if uuid in old(contents) then old(contents) else old(contents)[uuid := v]
      ensures forall x :: x in list <==> x in old(list) || (x == node && uuid !in old(contents))
    {
      hide Compare, Shape, Linked, Maps, Unique, OrdersBy, Nodes, Inorder, Sorted, Whole, TotalOrder, Once, Separates;
      Create(node, uuid);
      var pos := slot(uuid);
      BucketFacts(uuid);
      if table[pos] == NULL {
        AddToEmpty(uuid, v, node);
      } else {
        var c := BytesCompare(uuid, keyOf(table[pos]));
        CompareZero(uuid, keyOf(table[pos]));
        if c != 0 {
          AddToBucket(uuid, v, node);
        }
      }
    }

    /** The second branch of search_table_add: the tree decides whether the key is new. */
    method AddToBucket(uuid: Key, v: Val, node: Ptr)
      requires Valid() && node !in list && node !in {NULL, SENT} && keyOf(node) == uuid && node in tree.heap
      requires table[slot(uuid)] != NULL && keyOf(table[slot(uuid)]) != uuid
      modifies `table, `next, `prev, `listLen, `value, `count, `list, `contents
      modifies tree`heap, tree`root, tree`count, tree`tree
      ensures Valid()
      ensures contents == if uuid in old(contents) then old(contents) else old(contents)[uuid := v]
      ensures forall x :: x in list <==> x in old(list) || (x == node && uuid !in old(contents))
    {
      hide Compare, Shape, Linked, Maps, Unique, OrdersBy, Nodes, Inorder, Sorted, Whole, TotalOrder, Once, Separates,
          Inserted, Hashed;
      HashedAt(slot, keyOf, bucket, |table|, node);
      BucketFacts(uuid);
      ghost var before := tree.tree;
      var conflict, at := tree.Add(node);
      NewInTree(tree.compare, keyOf, node, Inorder(before));
      if conflict == NULL {
        assert uuid !in contents;
        NodesAfterAdd(before, tree.tree, at, node);
        LinkToBucket(uuid, v, node, Nodes(before));
      }
    }

    /** The value and the count of a node that is being linked behind position `i`. */
    method Enter(v: Val, node: Ptr, ghost i: int)
      requires Maps(keyOf, value, list, contents) && Unique(keyOf, list) && -1 <= i < |list|
      requires node !in list && keyOf(node) !in contents
      modifies `value, `count, `list, `contents
      ensures list == Inserted(old(list), i, node) && contents == old(contents)[keyOf(node) := v]
      ensures Maps(keyOf, value, list, contents) && Unique(keyOf, list)
      ensures count == old(count) + 1 && |list| == |old(list)| + 1
      ensures forall x :: x in list <==> x in old(list) || x == node
    {
      MapsInsert(keyOf, value, list, contents, i, node, v);
      InsertedExactly(list, i, node);
      hide Maps, Unique;
      value := value[node := v];
      count := count + 1;
      list := Inserted(list, i, node);
      contents := contents[keyOf(node) := v];
    }

    /** The list side of a node that entered the tree. */
    method LinkToBucket(uuid: Key, v: Val, node: Ptr, ghost nodes: set<Ptr>)
      requires Hashed(slot, keyOf, bucket, |table|) && tree.Valid() && OrdersBy(tree.compare, keyOf)
      requires Linked(next, prev, list)
      requires Shape(bucket, table, listLen, nodes, list) && Nodes(tree.tree) == nodes + {node}
      requires Maps(keyOf, value, list, contents) && Unique(keyOf, list) && count == |list|
      requires (forall x :: x in list ==> x in tree.heap) && node in tree.heap
      requires node !in list && node !in {NULL, SENT} && keyOf(node) == uuid && uuid !in contents
      requires 0 <= slot(uuid) < |table| && table[slot(uuid)] in list && table[slot(uuid)] in listLen
      modifies `next, `prev, `listLen, `value, `count, `list, `contents
      ensures Valid() && contents == old(contents)[uuid := v]
      ensures forall x :: x in list <==> x in old(list) || x == node
    {
      hide Compare, Shape, Linked, Maps, Unique, OrdersBy, Nodes, Inorder, Sorted, Whole, TotalOrder, Once, Inserted,
          Hashed, Avl.Avl.Valid;
      HashedAt(slot, keyOf, bucket, |table|, node);
      var head := table[slot(uuid)];
      ghost var i :| 0 <= i < |list| && list[i] == head;
      ShapeOnce(bucket, table, listLen, nodes, list);
      LinkBehind(node, head, i);
      ShapeBehind(bucket, table, listLen, nodes, list, i, node);
      listLen := listLen[head := listLen[head] + 1];
      Enter(v, node, i);
    }

    /** The first branch of search_table_add. */
    method AddToEmpty(uuid: Key, v: Val, node: Ptr)
      requires Valid() && node !in list && node !in {NULL, SENT} && keyOf(node) == uuid && node in tree.heap
      requires uuid !in contents && table[slot(uuid)] == NULL
      modifies `table, `next, `prev, `listLen, `value, `count, `list, `contents
      ensures Valid() && contents == old(contents)[uuid := v]
      ensures forall x :: x in list <==> x in old(list) || x == node
    {
      hide Compare, Shape, Linked, Maps, Unique, OrdersBy, Nodes, Inorder, Sorted, Whole, TotalOrder, Once, Inserted,
          Hashed, Avl.Avl.Valid;
      HashedAt(slot, keyOf, bucket, |table|, node);
      ShapeOnce(bucket, table, listLen, Nodes(tree.tree), list);
      LinkBehind(node, SENT, -1);
      ShapeFirst(bucket, table, listLen, Nodes(tree.tree), list, node);
      table := table[slot(uuid) := node];
      listLen := listLen[node := 0];
      Enter(v, node, -1);
    }
  
    /** search_table_del */
    method Del(uuid: Key) returns (v: Val)
      requires Valid()
      modifies `table, `next, `prev, `listLen, `value, `count, `list, `contents
      modifies tree`heap, tree`root, tree`count, tree`tree
      ensures Valid()
      ensures v == if uuid in old(contents) then old(contents)[uuid] else 0
      ensures contents == old(contents) - {uuid}
    {
      hide Compare, Shape, Linked, Maps, Unique, OrdersBy, Nodes, Inorder, Sorted, Whole, TotalOrder, Once,
          Separates, Hashed;
      var pos := slot(uuid);
      BucketFacts(uuid);
      v := 0;
      if table[pos] != NULL {
        var head := table[pos];
        var c := BytesCompare(uuid, keyOf(head));
        CompareZero(uuid, keyOf(head));
        if listLen[head] == 0 {
          if c == 0 {
            v := DelLone(uuid, head);
          } else {
            LoneBucket(uuid);
          }
        } else if |uuid| == |keyOf(head)| && c == 0 {
          v := DelHead(uuid, head);
        } else {
          var found, _ := tree.Find(Probe(uuid, keyOf));
          if found != NULL {
            CompareZero(uuid, keyOf(found));
            v := DelInner(uuid, found);
          } else {
            forall x | x in Nodes(tree.tree) ensures keyOf(x) != uuid { CompareZero(uuid, keyOf(x)); }
          }
        }
      }
    }

    /** A bucket of one holds no other key. */
    lemma LoneBucket(k: Key)
      requires Valid() && table[slot(k)] != NULL && keyOf(table[slot(k)]) != k && listLen[table[slot(k)]] == 0
      ensures k !in contents
    {
      if k in contents {
        var x :| x in list && keyOf(x) == k;
        CountTwo(bucket, list, x, table[slot(k)]);
      }
    }

    /** The bucket becomes empty. */
    method DelLone(uuid: Key, head: Ptr) returns (v: Val)
      requires Valid() && head != NULL && head == table[slot(uuid)] && keyOf(head) == uuid && listLen[head] == 0
      modifies `table, `next, `prev, `listLen, `value, `count, `list, `contents
      ensures Valid() && uuid in old(contents) && v == old(contents)[uuid] && contents == old(contents) - {uuid}
    {
      hide Compare, Shape, Linked, Maps, Unique, OrdersBy, Nodes, Inorder, Sorted, Whole, TotalOrder, Once, Separates,
          Dropped, Hashed, Avl.Avl.Valid;
      HashedAt(slot, keyOf, bucket, |table|, head);
      BucketFacts(uuid);
      ghost var i :| 0 <= i < |list| && list[i] == head;
      ShapeOnce(bucket, table, listLen, Nodes(tree.tree), list);
      DroppedOnce(list, i);
      ShapeHead(bucket, table, listLen, Nodes(tree.tree), list, i);
      table := table[slot(uuid) := NULL];
      v := Detach(head, i);
    }

    /** The tail of search_table_del: the node is dropped from list and count. */
    method Forget(node: Ptr, ghost i: int) returns (v: Val)
      requires Maps(keyOf, value, list, contents) && Unique(keyOf, list) && Once(list) && 0 <= i < |list|
          && node == list[i]
      modifies `count, `list, `contents
      ensures keyOf(node) in old(contents) && v == old(contents)[keyOf(node)]
      ensures list == Dropped(old(list), i) && contents == old(contents) - {keyOf(node)} && count == old(count) - 1
      ensures Maps(keyOf, value, list, contents) && Unique(keyOf, list) && |list| == |old(list)| - 1
      ensures forall x :: x in list ==> x in old(list)
    {
      MapsDrop(keyOf, value, list, contents, i);
      DroppedExactly(list, i);
      ValueKnown(keyOf, value, list, contents, node);
      hide Maps, Unique, Once;
      v := value[node];
      count := count - 1;
      list := Dropped(list, i);
      contents := contents - {keyOf(node)};
    }

    method Detach(node: Ptr, ghost i: int) returns (v: Val)
      requires Hashed(slot, keyOf, bucket, |table|) && tree.Valid() && OrdersBy(tree.compare, keyOf)
      requires Linked(next, prev, list) && Once(list)
      requires Maps(keyOf, value, list, contents) && Unique(keyOf, list) && count == |list|
      requires forall x :: x in list ==> x in tree.heap
      requires 0 <= i < |list| && node == list[i] && Shape(bucket, table, listLen, Nodes(tree.tree), Dropped(list, i))
      modifies `next, `prev, `count, `list, `contents
      ensures Valid() && keyOf(node) in old(contents)
      ensures v == old(contents)[keyOf(node)] && contents == old(contents) - {keyOf(node)}
    {
      hide Compare, Shape, Linked, Maps, Unique, OrdersBy, Nodes, Inorder, Sorted, Whole, TotalOrder, Once, Separates,
          Dropped;
      Unlink(node, i);
      v := Forget(node, i);
    }

    method TreeDrop(node: Ptr)
      requires tree.Valid() && node in Nodes(tree.tree) && node in tree.heap && node != NULL
      modifies tree`heap, tree`root, tree`count, tree`tree
      ensures tree.Valid() && Nodes(tree.tree) == old(Nodes(tree.tree)) - {node}
          && tree.heap.Keys == old(tree.heap.Keys)
    {
      hide Nodes, Inorder, Sorted, Whole, TotalOrder, Outside;
      ghost var nodes, h := Nodes(tree.tree), tree.heap;
      ghost var _ := tree.Remove(node);
      KeysKept(h, tree.heap, nodes);
    }

    /** The head goes, the next node of the bucket takes its place and leaves the tree. */
    method DelHead(uuid: Key, head: Ptr) returns (v: Val)
      requires Valid() && head != NULL && head == table[slot(uuid)] && keyOf(head) == uuid
      requires head in listLen && listLen[head] != 0
      modifies `table, `next, `prev, `listLen, `value, `count, `list, `contents
      modifies tree`heap, tree`root, tree`count, tree`tree
      ensures Valid() && uuid in old(contents) && v == old(contents)[uuid] && contents == old(contents) - {uuid}
    {
      hide Compare, Shape, Linked, Maps, Unique, OrdersBy, Nodes, Inorder, Sorted, Whole, TotalOrder, Once, Separates,
          Dropped;
      ShapeOnce(bucket, table, listLen, Nodes(tree.tree), list);
      HeadListed(bucket, table, listLen, Nodes(tree.tree), list, slot(uuid));
      ghost var i :| 0 <= i < |list| && list[i] == head;
      Promote(head, i);
      v := Detach(head, i);
    }

    method Promote(head: Ptr, ghost i: int)
      requires Hashed(slot, keyOf, bucket, |table|) && tree.Valid()
      requires Shape(bucket, table, listLen, Nodes(tree.tree), list) && Linked(next, prev, list)
      requires (forall x :: x in list ==> x in tree.heap) && 0 <= i < |list| && list[i] == head
      requires head == table[bucket(head)] && head in listLen && listLen[head] != 0
      modifies `table, `listLen
      modifies tree`heap, tree`root, tree`count, tree`tree
      ensures tree.Valid() && tree.heap.Keys == old(tree.heap.Keys) && |table| == |old(table)|
      ensures Shape(bucket, table, listLen, Nodes(tree.tree), Dropped(list, i))
    {
      hide Shape, Linked, Nodes, Inorder, Sorted, Whole, TotalOrder, Once, Dropped;
      ghost var nodes := Nodes(tree.tree);
      ShapeOnce(bucket, table, listLen, nodes, list);
      DroppedOnce(list, i);
      NextInList(next, prev, list, i);
      ShapeHead(bucket, table, listLen, nodes, list, i);
      var heir := next[head];
      listLen := listLen[heir := listLen[head] - 1];
      table := table[slot(keyOf(head)) := heir];
      TreeDrop(heir);
    }

    /** A node that is no head goes. */
    method DelInner(uuid: Key, node: Ptr) returns (v: Val)
      requires Valid() && node in Nodes(tree.tree) && keyOf(node) == uuid
      modifies `table, `next, `prev, `listLen, `value, `count, `list, `contents
      modifies tree`heap, tree`root, tree`count, tree`tree
      ensures Valid() && uuid in old(contents) && v == old(contents)[uuid] && contents == old(contents) - {uuid}
    {
      hide Compare, Shape, Linked, Maps, Unique, OrdersBy, Nodes, Inorder, Sorted, Whole, TotalOrder, Once, Separates,
          Dropped;
      ghost var nodes := Nodes(tree.tree);
      ShapeOnce(bucket, table, listLen, nodes, list);
      OthersListed(bucket, table, listLen, nodes, list);
      ghost var i :| 0 <= i < |list| && list[i] == node;
      DroppedOnce(list, i);
      ShapeInner(bucket, table, listLen, nodes, list, i);
      var head := table[slot(uuid)];
      listLen := listLen[head := listLen[head] - 1];
      TreeDrop(node);
      v := Detach(node, i);
    }
  }

  lemma HeadListed(bucket: Ptr -> int, table: seq<Ptr>, lens: map<Ptr, int>, nodes: set<Ptr>, s: seq<Ptr>, b: int)
    requires Shape(bucket, table, lens, nodes, s) && 0 <= b < |table| && table[b] != NULL
    ensures table[b] in s && bucket(table[b]) == b
  {}

  lemma ValueKnown(keyOf: Ptr -> Key, value: map<Ptr, Val>, s: seq<Ptr>, m: map<Key, Val>, x: Ptr)
    requires Maps(keyOf, value, s, m) && x in s
    ensures x in value && keyOf(x) in m && m[keyOf(x)] == value[x]
  {}

  lemma KeysKept(h: Heap, h': Heap, s: set<Ptr>)
    requires Outside(h, h', s)
    ensures h'.Keys == h.Keys
  {}

  lemma CountTwo(bucket: Ptr -> int, s: seq<Ptr>, x: Ptr, y: Ptr)
    requires x in s && y in s && x != y && bucket(x) == bucket(y)
    ensures Count(bucket, s, bucket(x)) >= 2
  {
    var i :| 0 <= i < |s| && s[i] == x;
    DroppedKeeps(s, i, y);
    DropCount(bucket, s, i, bucket(x));
    CountZero(bucket, Dropped(s, i), bucket(x));
  }
}
