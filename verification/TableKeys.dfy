/** The comparison of the hash table's keys, bytes_compare of src/xnet/xtable.c. */
module TableKeys {
  import opened AvlShape
  import opened AvlOrder

  /** A string that is not empty, its characters as numbers. */
  type Key = k: seq<int> | |k| > 0 witness [0]

  /** Byte by byte up to the shorter length, then by length. */
  function Compare(a: Key, b: Key): int
    decreases |a|
  {
    if a[0] != b[0] then a[0] - b[0]
    else if |a| == 1 || |b| == 1 then |a| - |b|
    else Compare(a[1..], b[1..])
  }

  /** The loop of bytes_compare. */
  method BytesCompare(a: Key, b: Key) returns (r: int)
    ensures r == Compare(a, b)
  {
    var len := if |a| < |b| then |a| else |b|;
    var i := 0;
    len := len - 1;
    while len != 0 && a[i] == b[i]
      invariant 0 <= i && len + i + 1 == (if |a| < |b| then |a| else |b|) && 0 <= len
      invariant Compare(a, b) == Compare(a[i..], b[i..])
      decreases len
    {
      assert a[i..][1..] == a[i + 1..] && b[i..][1..] == b[i + 1..];
      i := i + 1;
      len := len - 1;
    }
    r := a[i] - b[i];
    if r == 0 { return |a| - |b|; }
  }

  /** The first byte in which the keys differ decides, and if one begins the other, the length. */
  lemma {:induction false} CompareFirst(a: Key, b: Key, i: nat)
    requires i <= |a| && i <= |b| && a[..i] == b[..i]
    ensures i < |a| && i < |b| && a[i] != b[i] ==> Compare(a, b) == a[i] - b[i]
    ensures i == |a| || i == |b| ==> Compare(a, b) == |a| - |b|
    decreases i
  {
    if i > 0 {
      assert a[0] == a[..i][0] == b[..i][0] == b[0];
      if |a| > 1 && |b| > 1 {
        assert a[1..][..i - 1] == a[..i][1..] && b[1..][..i - 1] == b[..i][1..];
        CompareFirst(a[1..], b[1..], i - 1);
      }
    }
  }

  lemma {:induction false} CompareZero(a: Key, b: Key)
    ensures Compare(a, b) == 0 <==> a == b
    decreases |a|
  {
    if a[0] == b[0] && |a| > 1 && |b| > 1 {
      CompareZero(a[1..], b[1..]);
      assert a == [a[0]] + a[1..] && b == [b[0]] + b[1..];
    }
  }

  lemma {:induction false} CompareFlips(a: Key, b: Key)
    ensures Compare(a, b) == -Compare(b, a)
    decreases |a|
  {
    if a[0] == b[0] && |a| > 1 && |b| > 1 { CompareFlips(a[1..], b[1..]); }
  }

  lemma {:induction false} CompareChains(a: Key, b: Key, c: Key)
    requires Compare(a, b) <= 0 && Compare(b, c) <= 0
    ensures Compare(a, c) <= 0
    decreases |a|
  {
    if a[0] == b[0] == c[0] && |a| > 1 && |b| > 1 && |c| > 1 { CompareChains(a[1..], b[1..], c[1..]); }
  }

  /** The order a tree of nodes is kept in. */
  ghost predicate OrdersBy(cmp: (Ptr, Ptr) -> int, keyOf: Ptr -> Key) {
    forall x, y :: cmp(x, y) == Compare(keyOf(x), keyOf(y))
  }

  lemma OrderAt(cmp: (Ptr, Ptr) -> int, keyOf: Ptr -> Key, x: Ptr, y: Ptr)
    requires OrdersBy(cmp, keyOf)
    ensures cmp(x, y) == Compare(keyOf(x), keyOf(y)) && (cmp(x, y) == 0 <==> keyOf(x) == keyOf(y))
  {
    CompareZero(keyOf(x), keyOf(y));
  }

  lemma KeysAreOrdered(cmp: (Ptr, Ptr) -> int, keyOf: Ptr -> Key)
    requires OrdersBy(cmp, keyOf)
    ensures TotalOrder(cmp)
  {
    hide Compare;
    forall a, b ensures cmp(a, b) < 0 <==> cmp(b, a) > 0 { CompareFlips(keyOf(a), keyOf(b)); }
    forall a, b, c | cmp(a, b) <= 0 && cmp(b, c) <= 0 ensures cmp(a, c) <= 0 {
        CompareChains(keyOf(a), keyOf(b), keyOf(c)); }
  }

  /** Searching with a key that belongs to no node. */
  lemma KeySeparates(cmp: (Ptr, Ptr) -> int, keyOf: Ptr -> Key, k: Key, s: seq<Ptr>)
    requires OrdersBy(cmp, keyOf) && Sorted(cmp, s)
    ensures Separates(y => Compare(k, keyOf(y)), s)
  {
    hide Compare;
    var probe := y => Compare(k, keyOf(y));
    forall i, j | 0 <= i < j < |s| && probe(s[i]) <= 0 ensures probe(s[j]) < 0 {
      OrderAt(cmp, keyOf, s[i], s[j]);
      KeyBehind(k, keyOf(s[i]), keyOf(s[j]));
    }
  }

  lemma KeyBehind(k: Key, a: Key, b: Key)
    requires Compare(k, a) <= 0 && Compare(a, b) < 0
    ensures Compare(k, b) < 0
  {
    CompareChains(k, a, b);
    CompareFlips(a, b);
    CompareFlips(k, b);
    CompareZero(k, b);
    CompareFlips(b, a);
    if Compare(k, b) == 0 { CompareFlips(k, a); }
  }
}
