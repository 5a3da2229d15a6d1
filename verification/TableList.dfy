/** The list behind the hash table of src/xnet/xtable.c: one ring of nodes in which every bucket
    is a run led by its head. */
module TableList {
  import opened AvlShape

  /** The list head inside the table. */
  const SENT: Ptr := -1

  function At(s: seq<Ptr>, i: int): Ptr { if 0 <= i < |s| then s[i] else SENT }

  /** `next` and `prev` hold the ring of the sentinel and `s`. */
  ghost predicate Linked(next: map<Ptr, Ptr>, prev: map<Ptr, Ptr>, s: seq<Ptr>) {
    forall i :: -1 <= i < |s| ==> StepHolds(next, prev, s, i)
  }

  ghost predicate StepHolds(next: map<Ptr, Ptr>, prev: map<Ptr, Ptr>, s: seq<Ptr>, i: int) {
    && At(s, i) in next && next[At(s, i)] == At(s, i + 1)
    && At(s, i + 1) in prev && prev[At(s, i + 1)] == At(s, i)
  }

  ghost predicate Once(s: seq<Ptr>) {
    SENT !in s && NULL !in s && forall i, j :: 0 <= i < j < |s| ==> s[i] != s[j]
  }

  function Inserted(s: seq<Ptr>, i: int, x: Ptr): seq<Ptr>
    requires -1 <= i < |s|
  {
    s[..i + 1] + [x] + s[i + 1..]
  }

  function Dropped(s: seq<Ptr>, i: int): seq<Ptr>
    requires 0 <= i < |s|
  {
    s[..i] + s[i + 1..]
  }

  lemma AtOnce(s: seq<Ptr>, i: int, j: int)
    requires Once(s) && -1 <= i <= |s| && -1 <= j <= |s| && At(s, i) == At(s, j)
    ensures i == j || (i in {-1, |s|} && j in {-1, |s|})
  {}

  /** The four link writes of search_table_add. */
  lemma InsertLinks(next: map<Ptr, Ptr>, prev: map<Ptr, Ptr>, s: seq<Ptr>, i: int, x: Ptr)
    requires Linked(next, prev, s) && Once(s) && -1 <= i < |s| && x !in s && x !in {SENT, NULL}
    ensures At(s, i) in next && next[At(s, i)] == At(s, i + 1) && At(s, i + 1) in prev
    ensures var n := next[x := At(s, i + 1)][At(s, i) := x]; var p := prev[x := At(s, i)][At(s, i + 1) := x];
      Linked(n, p, Inserted(s, i, x))
    ensures Once(Inserted(s, i, x))
  {
    assert StepHolds(next, prev, s, i);
    var n := next[x := At(s, i + 1)][At(s, i) := x];
    var p := prev[x := At(s, i)][At(s, i + 1) := x];
    var s' := Inserted(s, i, x);
    forall j | -1 <= j < |s'| ensures StepHolds(n, p, s', j) {
      var k := if j <= i then j else j - 1;
      if j == i || j == i + 1 {
        assert At(s', i) == At(s, i) && At(s', i + 1) == x && At(s', i + 2) == At(s, i + 1);
      } else {
        assert At(s', j) == At(s, k) && At(s', j + 1) == At(s, k + 1);
        assert StepHolds(next, prev, s, k);
        if At(s, k) == At(s, i) { AtOnce(s, k, i); }
        if At(s, k + 1) == At(s, i + 1) { AtOnce(s, k + 1, i + 1); }
      }
    }
  }

  /** The two link writes of search_table_del. */
  lemma DropLinks(next: map<Ptr, Ptr>, prev: map<Ptr, Ptr>, s: seq<Ptr>, i: int)
    requires Linked(next, prev, s) && Once(s) && 0 <= i < |s|
    ensures s[i] in next && next[s[i]] == At(s, i + 1) && s[i] in prev && prev[s[i]] == At(s, i - 1)
    ensures At(s, i + 1) in prev && At(s, i - 1) in next
    ensures Linked(next[At(s, i - 1) := At(s, i + 1)], prev[At(s, i + 1) := At(s, i - 1)], Dropped(s, i))
    ensures Once(Dropped(s, i))
  {
    assert StepHolds(next, prev, s, i) && StepHolds(next, prev, s, i - 1);
    var n, p := next[At(s, i - 1) := At(s, i + 1)], prev[At(s, i + 1) := At(s, i - 1)];
    var s' := Dropped(s, i);
    forall j | -1 <= j < |s'| ensures StepHolds(n, p, s', j) {
      var k := if j < i then j else j + 1;
      assert At(s', j) == At(s, k);
      if j == i - 1 {
        assert At(s', j + 1) == At(s, i + 1);
      } else {
        assert At(s', j + 1) == At(s, k + 1);
        assert StepHolds(next, prev, s, k);
        if At(s, k) == At(s, i - 1) { AtOnce(s, k, i - 1); }
        if At(s, k + 1) == At(s, i + 1) { AtOnce(s, k + 1, i + 1); }
      }
    }
  }

  lemma DroppedOnce(s: seq<Ptr>, i: int)
    requires Once(s) && 0 <= i < |s|
    ensures Once(Dropped(s, i))
  {}

  lemma NextInList(next: map<Ptr, Ptr>, prev: map<Ptr, Ptr>, s: seq<Ptr>, i: int)
    requires Linked(next, prev, s) && 0 <= i < |s|
    ensures s[i] in next && (i + 1 < |s| ==> next[s[i]] == s[i + 1])
  {
    assert StepHolds(next, prev, s, i);
  }

  // ---------------------------------------------------------------- buckets

  /** The nodes of bucket `b`. */
  function Count(bucket: Ptr -> int, s: seq<Ptr>, b: int): nat {
    if s == [] then 0 else (if bucket(s[0]) == b then 1 else 0) + Count(bucket, s[1..], b)
  }

  lemma {:induction false} CountSplit(bucket: Ptr -> int, x: seq<Ptr>, y: seq<Ptr>, b: int)
    ensures Count(bucket, x + y, b) == Count(bucket, x, b) + Count(bucket, y, b)
    decreases |x|
  {
    if x == [] {
      assert x + y == y;
    } else {
      assert (x + y)[1..] == x[1..] + y;
      CountSplit(bucket, x[1..], y, b);
    }
  }

  lemma {:induction false} CountZero(bucket: Ptr -> int, s: seq<Ptr>, b: int)
    ensures Count(bucket, s, b) == 0 <==> forall x :: x in s ==> bucket(x) != b
  {
    if s != [] {
      CountZero(bucket, s[1..], b);
      assert forall x :: x in s <==> x == s[0] || x in s[1..];
    }
  }

  lemma InsertCount(bucket: Ptr -> int, s: seq<Ptr>, i: int, x: Ptr, b: int)
    requires -1 <= i < |s|
    ensures Count(bucket, Inserted(s, i, x), b) == Count(bucket, s, b) + if bucket(x) == b then 1 else 0
  {
    CountSplit(bucket, s[..i + 1], s[i + 1..], b);
    CountSplit(bucket, s[..i + 1] + [x], s[i + 1..], b);
    CountSplit(bucket, s[..i + 1], [x], b);
    assert s[..i + 1] + s[i + 1..] == s;
  }

  lemma DropCount(bucket: Ptr -> int, s: seq<Ptr>, i: int, b: int)
    requires 0 <= i < |s|
    ensures Count(bucket, Dropped(s, i), b) == Count(bucket, s, b) - if bucket(s[i]) == b then 1 else 0
  {
    CountSplit(bucket, s[..i], s[i + 1..], b);
    CountSplit(bucket, s[..i] + [s[i]], s[i + 1..], b);
    CountSplit(bucket, s[..i], [s[i]], b);
    assert s[..i] + [s[i]] + s[i + 1..] == s;
  }

  /** The head of a bucket, NULL when it is empty. */
  function Head(table: seq<Ptr>, b: int): Ptr { if 0 <= b < |table| then table[b] else NULL }

  /** Every bucket with nodes has a head among them; every other node stands right behind a node
      of its own bucket. So a bucket is one run of the list, its head first. */
  ghost predicate Runs(bucket: Ptr -> int, table: seq<Ptr>, s: seq<Ptr>) {
    && (forall b :: 0 <= b < |table| && table[b] != NULL ==> table[b] in s && bucket(table[b]) == b)
    && (forall i :: 0 <= i < |s| ==> Led(bucket, table, s, i))
  }

  ghost predicate Led(bucket: Ptr -> int, table: seq<Ptr>, s: seq<Ptr>, i: int)
    requires 0 <= i < |s|
  {
    && Head(table, bucket(s[i])) != NULL
    && (s[i] != Head(table, bucket(s[i])) ==> i > 0 && bucket(s[i - 1]) == bucket(s[i]))
  }

  /** A bucket's other nodes lie behind its head without a gap. */
  lemma {:induction false} RunFromHead(bucket: Ptr -> int, table: seq<Ptr>, s: seq<Ptr>, h: int, j: int)
    requires Runs(bucket, table, s) && Once(s) && 0 <= h < |s| && 0 <= j < |s|
    requires s[h] == Head(table, bucket(s[j])) && j != h
    ensures h < j && forall m :: h <= m <= j ==> bucket(s[m]) == bucket(s[j])
    decreases j
  {
    assert Led(bucket, table, s, j);
    if j - 1 != h { RunFromHead(bucket, table, s, h, j - 1); }
  }

  /** A head with a positive count of others is followed by one of them. */
  lemma SecondInRun(bucket: Ptr -> int, table: seq<Ptr>, s: seq<Ptr>, h: int)
    requires Runs(bucket, table, s) && Once(s) && 0 <= h < |s| && s[h] == Head(table, bucket(s[h]))
    ensures Count(bucket, s, bucket(s[h])) >= 2 <==> h + 1 < |s| && bucket(s[h + 1]) == bucket(s[h])
  {
    hide Runs, Once;
    var b, s' := bucket(s[h]), Dropped(s, h);
    DropCount(bucket, s, h, b);
    CountZero(bucket, s', b);
    if Count(bucket, s', b) > 0 {
      var j :| 0 <= j < |s'| && bucket(s'[j]) == b;
      if j < h { RunFromHead(bucket, table, s, h, j); } else { SecondFrom(bucket, table, s, h, j + 1); }
    } else if h + 1 < |s| {
      assert s'[h] == s[h + 1];
    }
  }

  lemma SecondFrom(bucket: Ptr -> int, table: seq<Ptr>, s: seq<Ptr>, h: int, j: int)
    requires Runs(bucket, table, s) && Once(s) && 0 <= h < j < |s| && s[h] == Head(table, bucket(s[j]))
    ensures bucket(s[h + 1]) == bucket(s[j])
  {
    RunFromHead(bucket, table, s, h, j);
  }

  // ---------------------------------------------------------------- the five changes

  lemma InsertedLed(bucket: Ptr -> int, table: seq<Ptr>, s: seq<Ptr>, i: int, x: Ptr, j: int)
    requires Runs(bucket, table, s) && 0 <= i < |s| && s[i] == Head(table, bucket(x)) && bucket(s[i]) == bucket(x)
    requires 0 <= j < |s| + 1
    ensures Led(bucket, table, Inserted(s, i, x), j)
  {
    var k := if j <= i then j else j - 1;
    assert Led(bucket, table, s, k);
    assert j == i + 1 || Inserted(s, i, x)[j] == s[k];
  }

  /** A node behind the head of its bucket. */
  lemma AddBehind(bucket: Ptr -> int, table: seq<Ptr>, s: seq<Ptr>, i: int, x: Ptr)
    requires Runs(bucket, table, s) && Once(s) && 0 <= i < |s| && s[i] == Head(table, bucket(x))
    ensures Runs(bucket, table, Inserted(s, i, x)) && bucket(s[i]) == bucket(x)
  {
    forall j | 0 <= j < |s| + 1 ensures Led(bucket, table, Inserted(s, i, x), j) {
        InsertedLed(bucket, table, s, i, x, j); }
  }

  /** The first node of its bucket, in front of all. */
  lemma AddFirst(bucket: Ptr -> int, table: seq<Ptr>, s: seq<Ptr>, x: Ptr)
    requires Runs(bucket, table, s) && 0 <= bucket(x) < |table| && table[bucket(x)] == NULL && x != NULL
    ensures Runs(bucket, table[bucket(x) := x], Inserted(s, -1, x))
  {
    var t', s' := table[bucket(x) := x], Inserted(s, -1, x);
    forall j | 0 <= j < |s'| ensures Led(bucket, t', s', j) {
      if j > 0 { assert Led(bucket, table, s, j - 1) && s'[j] == s[j - 1] && (j > 1 ==> s'[j - 1] == s[j - 2]); }
    }
    assert s'[0] == x && forall y :: y in s ==> y in s';
  }

  /** A node that is not a head leaves. */
  lemma DropInner(bucket: Ptr -> int, table: seq<Ptr>, s: seq<Ptr>, i: int)
    requires Runs(bucket, table, s) && 0 <= i < |s| && s[i] != Head(table, bucket(s[i])) && Once(s)
    ensures Runs(bucket, table, Dropped(s, i))
  {
    var s' := Dropped(s, i);
    assert Led(bucket, table, s, i);
    forall j | 0 <= j < |s'| ensures Led(bucket, table, s', j) {
      var k := if j < i then j else j + 1;
      assert Led(bucket, table, s, k) && s'[j] == s[k];
    }
    forall y | y in s && y != s[i] ensures y in s' { DroppedKeeps(s, i, y); }
  }

  lemma DroppedKeeps(s: seq<Ptr>, i: int, y: Ptr)
    requires 0 <= i < |s| && y in s && y != s[i]
    ensures y in Dropped(s, i)
  {
    var k :| 0 <= k < |s| && s[k] == y;
    assert Dropped(s, i)[if k < i then k else k - 1] == y;
  }

  lemma DroppedExactly(s: seq<Ptr>, i: int)
    requires Once(s) && 0 <= i < |s|
    ensures forall y :: y in Dropped(s, i) <==> y in s && y != s[i]
  {
    var s' := Dropped(s, i);
    forall y ensures y in s' <==> y in s && y != s[i] {
      if y in s && y != s[i] { DroppedKeeps(s, i, y); }
      if y in s' {
        var k :| 0 <= k < |s'| && s'[k] == y;
        assert s'[k] == s[if k < i then k else k + 1];
      }
    }
  }

  /** A head leaves, and the next node of its bucket, if there is one, becomes the head. */
  lemma DropHead(bucket: Ptr -> int, table: seq<Ptr>, s: seq<Ptr>, i: int, heir: Ptr)
    requires Runs(bucket, table, s) && Once(s) && 0 <= i < |s| && 0 <= bucket(s[i]) < |table|
        && s[i] == table[bucket(s[i])]
    requires if i + 1 < |s| && bucket(s[i + 1]) == bucket(s[i]) then heir == s[i + 1] else heir == NULL
    ensures Runs(bucket, table[bucket(s[i]) := heir], Dropped(s, i))
  {
    var b := bucket(s[i]);
    var t', s' := table[b := heir], Dropped(s, i);
    DroppedExactly(s, i);
    forall j | 0 <= j < |s'| ensures Led(bucket, t', s', j) { DropHeadLed(bucket, table, s, i, heir, j); }
    forall c | 0 <= c < |t'| && t'[c] != NULL ensures t'[c] in s' && bucket(t'[c]) == c {
      if c == b { assert s[i + 1] in s; }
    }
  }

  lemma DropHeadLed(bucket: Ptr -> int, table: seq<Ptr>, s: seq<Ptr>, i: int, heir: Ptr, j: int)
    requires Runs(bucket, table, s) && Once(s) && 0 <= i < |s| && 0 <= bucket(s[i]) < |table|
        && s[i] == table[bucket(s[i])]
    requires if i + 1 < |s| && bucket(s[i + 1]) == bucket(s[i]) then heir == s[i + 1] else heir == NULL
    requires 0 <= j < |s| - 1
    ensures Led(bucket, table[bucket(s[i]) := heir], Dropped(s, i), j)
  {
    var b := bucket(s[i]);
    var k := if j < i then j else j + 1;
    assert Led(bucket, table, s, k) && Dropped(s, i)[j] == s[k];
    if bucket(s[k]) == b {
      RunFromHead(bucket, table, s, i, k);
      assert bucket(s[i + 1]) == b;
      assert k != i + 1 ==> bucket(s[k - 1]) == b;
    } else if k == i + 1 {
      assert s[k] == Head(table, bucket(s[k]));
    }
  }

  lemma InsertedExactly(s: seq<Ptr>, i: int, x: Ptr)
    requires -1 <= i < |s|
    ensures forall y :: y in Inserted(s, i, x) <==> y in s || y == x
  {
    assert s == s[..i + 1] + s[i + 1..];
  }
}
