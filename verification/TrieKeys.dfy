/** The stored paths of the nibble tree as the byte keys they stand for. */
module TrieKeys {
  import opened Common
  import opened TrieShape
  import opened TrieOrder

  type Bytes = seq<Byte>

  /** `vals` holds the values of `contents` under the paths of their keys. */
  ghost predicate Spelled(contents: map<Bytes, Val>, vals: map<Path, Val>) {
    && (forall k :: k in contents ==> k != [] && Nib(k) in vals && vals[Nib(k)] == contents[k])
    && (forall q :: q in vals ==> exists k :: k in contents && Nib(k) == q)
  }

  function Lookup(contents: map<Bytes, Val>, key: Bytes): Val {
    if key in contents then contents[key] else 0
  }

  lemma SpelledLookup(contents: map<Bytes, Val>, vals: map<Path, Val>, key: Bytes)
    requires Spelled(contents, vals)
    ensures (key in contents <==> Nib(key) in vals) && Get(vals, Nib(key)) == Lookup(contents, key)
  {
    hide Nib;
    if Nib(key) in vals {
      var k :| k in contents && Nib(k) == Nib(key);
      NibInjective(k, key);
    }
  }

  lemma SpelledAdd(contents: map<Bytes, Val>, vals: map<Path, Val>, key: Bytes, v: Val)
    requires Spelled(contents, vals) && key != []
    ensures Spelled(contents[key := v], vals[Nib(key) := v])
  {
    hide Nib;
    var c', v' := contents[key := v], vals[Nib(key) := v];
    forall k | k in c' ensures k != [] && Nib(k) in v' && v'[Nib(k)] == c'[k] { NibInjective(k, key); }
    SpelledBack(contents, vals, c', v', key, v);
  }

  lemma SpelledBack(contents: map<Bytes, Val>, vals: map<Path, Val>, c': map<Bytes, Val>, v': map<Path, Val>,
      key: Bytes, v: Val)
    requires Spelled(contents, vals) && c' == contents[key := v] && v' == vals[Nib(key) := v]
    ensures forall q :: q in v' ==> exists k :: k in c' && Nib(k) == q
  {
    hide Nib;
    forall q | q in v' ensures exists k :: k in c' && Nib(k) == q {
      if q == Nib(key) {
        assert key in c';
      } else {
        var k :| k in contents && Nib(k) == q;
        assert k in c';
      }
    }
  }

  /** The contents after `v` was stored under `key`; storing the null pointer stores nothing. */
  function Stored(contents: map<Bytes, Val>, key: Bytes, v: Val): map<Bytes, Val> {
    if v == 0 then contents - {key} else contents[key := v]
  }

  lemma SpelledPut(contents: map<Bytes, Val>, vals: map<Path, Val>, key: Bytes, v: Val)
    requires Spelled(contents, vals) && key != []
    ensures Spelled(Stored(contents, key, v), Put(vals, Nib(key), v))
  {
    hide Spelled;
    SpelledAdd(contents, vals, key, v);
    SpelledDrop(contents, vals, key);
  }

  lemma SpelledDrop(contents: map<Bytes, Val>, vals: map<Path, Val>, key: Bytes)
    requires Spelled(contents, vals)
    ensures Spelled(contents - {key}, vals - {Nib(key)})
  {
    hide Nib;
    var c', v' := contents - {key}, vals - {Nib(key)};
    forall k | k in c' ensures Nib(k) in v' && v'[Nib(k)] == c'[k] { NibInjective(k, key); }
    forall q | q in v' ensures exists k :: k in c' && Nib(k) == q {
      var k :| k in contents && Nib(k) == q;
      assert k in c';
    }
  }

  /** A path goes through the node of another exactly when the key continues the other. */
  lemma {:induction false} NibPrefix(a: Bytes, b: Bytes)
    ensures Prefix(Nib(a), Nib(b)) <==> a <= b
    decreases a
  {
    if a != [] && b != [] {
      NibPrefix(a[1..], b[1..]);
      Peel(a);
      Peel(b);
      hide Nib;
      PrefixStep(Nib(a), Nib(b));
      PrefixStep(Nib(a)[1..], Nib(b)[1..]);
      assert Nib(a)[1..][1..] == Nib(a)[2..] && Nib(b)[1..][1..] == Nib(b)[2..];
      assert a <= b <==> a[0] == b[0] && a[1..] <= b[1..] by { StartsStep(a, b); }
    } else if a == [] {
      assert Nib(a) == [];
    }
  }

  lemma StartsStep(a: Bytes, b: Bytes)
    requires a != [] && b != []
    ensures a <= b <==> a[0] == b[0] && a[1..] <= b[1..]
  {
    if a[0] == b[0] && a[1..] <= b[1..] {
      assert b[..|a|] == [b[0]] + b[1..][..|a| - 1];
      assert a == [a[0]] + a[1..];
    }
  }

  /** `held` holds the paths of the keys of `calls`. */
  ghost predicate Called(calls: map<nat, Bytes>, held: map<nat, Path>) {
    && calls.Keys == held.Keys
    && (forall s :: s in calls ==> calls[s] != [] && held[s] == Nib(calls[s]))
  }

  /** The additions of keys that continue `key`. */
  ghost function Continuing(calls: map<nat, Bytes>, key: Bytes): set<nat> {
    set s | s in calls && key <= calls[s]
  }

  lemma ContinuingThrough(calls: map<nat, Bytes>, book: Book, key: Bytes)
    requires Called(calls, book.held)
    ensures Continuing(calls, key) == Through(book, Nib(key))
  {
    hide Nib;
    forall s | s in calls ensures s in Continuing(calls, key) <==> s in Through(book, Nib(key)) {
      NibPrefix(key, calls[s]);
    }
  }

  lemma CalledAdd(calls: map<nat, Bytes>, held: map<nat, Path>, s: nat, key: Bytes)
    requires Called(calls, held) && key != []
    ensures Called(calls[s := key], held[s := Nib(key)])
  {
  }

  lemma CalledDrop(calls: map<nat, Bytes>, held: map<nat, Path>, s: nat)
    requires Called(calls, held)
    ensures Called(calls - {s}, held - {s})
  {
  }

  /** There is a node for a key exactly when some key that was added, and not taken back since,
      continues it. */
  lemma NodeIff(h: Heap, at: map<Path, Ptr>, calls: map<nat, Bytes>, book: Book, key: Bytes)
    requires Inv(h, at, book) && Called(calls, book.held) && key != []
    ensures Nib(key) in at <==> exists s :: s in calls && key <= calls[s]
  {
    hide NodeOk;
    ContinuingThrough(calls, book, key);
    assert Nib(key) in at <==> Wanted(book, [], 0, Nib(key));
    hide Nib, Through;
    if s :| s in Continuing(calls, key) {
      assert s in calls && key <= calls[s];
    } else {
      assert forall s :: s in calls && key <= calls[s] ==> s in Continuing(calls, key);
    }
  }

  /** The keys of a list of stored paths. */
  lemma {:induction false} KeysOf(contents: map<Bytes, Val>, vals: map<Path, Val>,
      order: seq<Path>) returns (keys: seq<Bytes>)
    requires Spelled(contents, vals) && forall q :: q in order ==> q in vals
    ensures |keys| == |order| && forall i :: 0 <= i < |keys| ==> keys[i] in contents && Nib(keys[i]) == order[i]
    decreases |order|
  {
    hide Nib;
    if order == [] {
      keys := [];
    } else {
      var n := |order| - 1;
      var front := KeysOf(contents, vals, order[..n]);
      assert order[n] in vals;
      var k :| k in contents && Nib(k) == order[n];
      keys := front + [k];
    }
  }

  ghost predicate KeysAscend(keys: seq<Bytes>) {
    forall i, j :: 0 <= i < j < |keys| ==> KeyLess(keys[i], keys[j])
  }

  /** An ascending list of paths is an ascending list of keys. */
  lemma AscendingKeys(keys: seq<Bytes>, order: seq<Path>)
    requires |keys| == |order| && (forall i :: 0 <= i < |keys| ==> Nib(keys[i]) == order[i]) && Ascending(order)
    ensures KeysAscend(keys)
  {
    hide Nib, Lex, KeyLess;
    forall i, j | 0 <= i < j < |keys| ensures KeyLess(keys[i], keys[j]) { NibOrder(keys[i], keys[j]); }
  }

  /** The keys are the first of those behind `from`. */
  ghost predicate FirstBehind(contents: map<Bytes, Val>, from: Bytes, keys: seq<Bytes>) {
    && (forall k :: k in keys ==> KeyLess(from, k))
    && (forall k, j :: k in contents && KeyLess(from, k) && k !in keys && j in keys ==> KeyLess(j, k))
  }

  lemma LeadingKeys(contents: map<Bytes, Val>, vals: map<Path, Val>, keys: seq<Bytes>, order: seq<Path>, from: Bytes)
    requires Spelled(contents, vals) && |keys| == |order| && Leading(order, vals, Nib(from) + [0])
    requires forall i :: 0 <= i < |keys| ==> keys[i] in contents && Nib(keys[i]) == order[i]
    ensures FirstBehind(contents, from, keys)
    ensures (forall q :: q in vals && !Lex(q, Nib(from) + [0]) ==> q in order) ==>
        forall k :: k in contents && KeyLess(from, k) ==> k in keys
  {
    hide Nib, Lex, KeyLess, Spelled;
    forall k | k in contents ensures (k in keys <==> Nib(k) in order) && Nib(k) in vals
        && (KeyLess(from, k) <==> !Lex(Nib(k), Nib(from) + [0])) {
      NibOrder(from, k);
      BehindNode(Nib(k), Nib(from));
      SpelledLookup(contents, vals, k);
      KeyListed(keys, order, k);
    }
    forall k, j | k in contents && KeyLess(from, k) && k !in keys && j in keys ensures KeyLess(j, k) {
      NibOrder(j, k);
      KeyListed(keys, order, j);
    }
  }

  lemma KeyListed(keys: seq<Bytes>, order: seq<Path>, k: Bytes)
    requires |keys| == |order| && forall i :: 0 <= i < |keys| ==> Nib(keys[i]) == order[i]
    ensures k in keys <==> Nib(k) in order
  {
    hide Nib;
    if k in keys {
      var i :| 0 <= i < |keys| && keys[i] == k;
      assert Nib(k) == order[i];
    } else if Nib(k) in order {
      var i :| 0 <= i < |order| && order[i] == Nib(k);
      NibInjective(keys[i], k);
    }
  }
}
