/** The recycle lists of a page: blocks whose free was deferred because the page was locked,
    stacked through their next words. */
module Recycle {
  import opened Blocks
  import opened FreeList
  import opened PageState

  const NONE := -1

  /** __max_recycle_pool */
  const POOLS := 3

  predicate StackAt(m: Mem, Q: seq<int>, k: int)
    requires 0 <= k < |Q|
  {
    0 <= Q[k] && Q[k] + FREE_HEAD <= |m| && m[Q[k] + 24] == if k + 1 < |Q| then Q[k + 1] else NONE
  }

  ghost predicate Stack(m: Mem, head: int, Q: seq<int>) {
    head == (if Q == [] then NONE else Q[0]) && forall k :: 0 <= k < |Q| ==> StackAt(m, Q, k)
  }

  /** Each deferred block is on one list, once. */
  ghost predicate Distinct(R: seq<seq<int>>) {
    forall i, k, j, l :: 0 <= i < |R| && 0 <= k < |R[i]| && 0 <= j < |R| && 0 <= l < |R[j]| && R[i][k] == R[j][l] ==>
      i == j && k == l
  }

  ghost function Deferred(R: seq<seq<int>>): set<int> {
    set i, k | 0 <= i < |R| && 0 <= k < |R[i]| :: R[i][k]
  }

  /** `A` are the blocks the page counts as allocated. */
  ghost predicate Recycled(m: Mem, pools: seq<int>, R: seq<seq<int>>, A: set<int>) {
    && |pools| == |R| == POOLS
    && (forall i :: 0 <= i < POOLS ==> Stack(m, pools[i], R[i]))
    && (forall i, k :: 0 <= i < POOLS && 0 <= k < |R[i]| ==> R[i][k] in A)
    && Distinct(R)
  }

  /** The user writes into a block of his; the page does not notice. */
  lemma PayloadWrite(m: Mem, ptr: int, S: set<int>, F: set<int>, L: seq<int>, E: int, tag: int, t: int, w: int,
      v: int)
    requires PageOk(m, ptr, S, F, L, E, tag, CLOSED) && t in S - F - {0, E} && Placed(m, E, t)
    requires t + WORK_HEAD <= w < Next(m, t) && w < |m|
    ensures PageOk(m[w := v], ptr, S, F, L, E, tag, CLOSED)
  {
    hide Chain;
    LayoutParts(m, S, F, E, tag, CLOSED);
    var m' := m[w := v];
    forall s | s in S ensures m'[s] == m[s] && m'[s + 8] == m[s + 8] {
      assert Placed(m, E, s);
      if s < t { Spacing(m, S, E, s, t); }
      if t < s { Spacing(m, S, E, t, s); }
    }
    SameLayout(m, m', S, F, E, tag, CLOSED);
    var N := Nodes(L, E);
    NodesPlaced(m, S, F, L, E, tag, CLOSED, ptr);
    forall i | 0 <= i < |N| ensures m'[N[i] + 16] == m[N[i] + 16] && m'[N[i] + 24] == m[N[i] + 24] {
      assert N[i] != t by { if 0 < i < |N| - 1 { assert N[i] == L[i - 1] && L[i - 1] in F; } }
      if N[i] < t { Spacing(m, S, E, N[i], t); } else { Spacing(m, S, E, t, N[i]); }
    }
    SameChain(m, m', N);
  }

  /** Lists of blocks whose memory is kept are kept. */
  lemma StackKept(m: Mem, m': Mem, head: int, Q: seq<int>)
    requires Stack(m, head, Q) && |m'| == |m|
    requires forall k :: 0 <= k < |Q| ==> 0 <= Q[k] && Q[k] + FREE_HEAD <= |m| && m'[Q[k] + 24] == m[Q[k] + 24]
    ensures Stack(m', head, Q)
  {
    forall k | 0 <= k < |Q| ensures StackAt(m', Q, k) { assert StackAt(m, Q, k); }
  }

  lemma NextWordLive(m: Mem, S: set<int>, F: set<int>, E: int, tag: int, skip: int, t: int)
    requires Layout(m, S, F, E, tag, CLOSED) && t in S - F - {0, E, skip}
    ensures 0 <= t && t + FREE_HEAD <= |m| && t + 24 in Live(m, S, F, E, skip) && t + 8 in Live(m, S, F, E, skip)
  {
    assert Placed(m, E, t) && Next(m, t) >= t + FREE_HEAD;
    assert Next(m, t) in S && Placed(m, E, Next(m, t));
    assert LiveIn(m, t, t + 24) && LiveIn(m, t, t + 8);
  }

  /** All lists survive a change that keeps the memory of every allocated block but `p`, if `p`
      is on none of them. */
  lemma RecycledKept(m: Mem, m': Mem, pools: seq<int>, R: seq<seq<int>>, S: set<int>, F: set<int>, E: int, tag: int,
                     p: int, A': set<int>)
    requires Layout(m, S, F, E, tag, CLOSED) && Recycled(m, pools, R, S - F - {0, E})
    requires p !in Deferred(R) && Kept(Live(m, S, F, E, p), m, m') && S - F - {0, E, p} <= A'
    ensures Recycled(m', pools, R, A')
  {
    forall i, k | 0 <= i < POOLS && 0 <= k < |R[i]|
      ensures R[i][k] in A' && R[i][k] in S - F - {0, E, p}
    {
      assert R[i][k] in Deferred(R);
    }
    forall i | 0 <= i < POOLS ensures Stack(m', pools[i], R[i]) {
      forall k | 0 <= k < |R[i]|
        ensures 0 <= R[i][k] && R[i][k] + FREE_HEAD <= |m| && m'[R[i][k] + 24] == m[R[i][k] + 24]
      {
        NextWordLive(m, S, F, E, tag, p, R[i][k]);
      }
      StackKept(m, m', pools[i], R[i]);
    }
  }

  lemma PushStack(m: Mem, pools: seq<int>, R: seq<seq<int>>, A: set<int>, p: int, i: nat)
    requires i < POOLS && Recycled(m, pools, R, A) && p in A && p !in Deferred(R)
    requires 0 <= p && p + FREE_HEAD <= |m| && m[p + 24] == pools[i]
    ensures Recycled(m, pools[i := p], R[i := [p] + R[i]], A)
    ensures Deferred(R[i := [p] + R[i]]) == Deferred(R) + {p}
  {
    var Q := [p] + R[i];
    var R' := R[i := Q];
    forall k | 0 <= k < |Q| ensures StackAt(m, Q, k) {
      if k > 0 { assert StackAt(m, R[i], k - 1) && Q[k] == R[i][k - 1]; }
    }
    forall a, k | 0 <= a < POOLS && 0 <= k < |R[a]| ensures R[a][k] in Deferred(R') && R[a][k] != p {
      assert R[a][k] in Deferred(R);
      if a == i { assert R'[i][k + 1] == R[a][k]; } else { assert R'[a][k] == R[a][k]; }
    }
    assert p in Deferred(R') by { assert R'[i][0] == p; }
    forall a, k | 0 <= a < POOLS && 0 <= k < |R'[a]|
      ensures R'[a][k] in A && R'[a][k] in Deferred(R) + {p}
    {
      if a == i && k > 0 { assert R'[a][k] == R[i][k - 1]; }
    }
    PushDistinct(R, p, i);
  }

  lemma PushDistinct(R: seq<seq<int>>, p: int, i: nat)
    requires |R| == POOLS && i < POOLS && Distinct(R) && p !in Deferred(R)
    ensures Distinct(R[i := [p] + R[i]])
  {
    var R' := R[i := [p] + R[i]];
    forall a, k, b, l | 0 <= a < |R'| && 0 <= k < |R'[a]| && 0 <= b < |R'| && 0 <= l < |R'[b]| && R'[a][k] == R'[b][l]
      ensures a == b && k == l
    {
      var k', l' := if a == i then k - 1 else k, if b == i then l - 1 else l;
      if k' >= 0 { assert R[a][k'] == R'[a][k] && R[a][k'] in Deferred(R); }
      if l' >= 0 { assert R[b][l'] == R'[b][l] && R[b][l'] in Deferred(R); }
    }
  }

  lemma PopStack(m: Mem, pools: seq<int>, R: seq<seq<int>>, A: set<int>, i: nat)
    requires i < POOLS && Recycled(m, pools, R, A) && pools[i] != NONE
    ensures |R[i]| > 0 && pools[i] == R[i][0] && pools[i] in A && 0 <= pools[i] && pools[i] + FREE_HEAD <= |m|
    ensures var R' := R[i := R[i][1..]];
            && Recycled(m, pools[i := m[pools[i] + 24]], R', A)
            && pools[i] !in Deferred(R') && Deferred(R') == Deferred(R) - {pools[i]}
  {
    assert Stack(m, pools[i], R[i]);
    assert StackAt(m, R[i], 0);
    var p := pools[i];
    var Q := R[i][1..];
    var R' := R[i := Q];
    forall k | 0 <= k < |Q| ensures StackAt(m, Q, k) {
      assert StackAt(m, R[i], k + 1);
    }
    forall a, k | 0 <= a < POOLS && 0 <= k < |R'[a]|
      ensures R'[a][k] in A && R'[a][k] in Deferred(R) && R'[a][k] != p
    {
      var k' := if a == i then k + 1 else k;
      assert R'[a][k] == R[a][k'];
      assert R[i][0] == p;
    }
    forall a, k | 0 <= a < POOLS && 0 <= k < |R[a]| && R[a][k] != p ensures R[a][k] in Deferred(R') {
      if a == i { assert R'[i][k - 1] == R[a][k]; } else { assert R'[a][k] == R[a][k]; }
    }
    assert p in Deferred(R);
    PopDistinct(R, i);
  }

  lemma PopDistinct(R: seq<seq<int>>, i: nat)
    requires i < |R| && Distinct(R) && |R[i]| > 0
    ensures Distinct(R[i := R[i][1..]])
  {
    var R' := R[i := R[i][1..]];
    forall a, k, b, l | 0 <= a < |R'| && 0 <= k < |R'[a]| && 0 <= b < |R'| && 0 <= l < |R'[b]| && R'[a][k] == R'[b][l]
      ensures a == b && k == l
    {
      var k', l' := if a == i then k + 1 else k, if b == i then l + 1 else l;
      assert R[a][k'] == R'[a][k] && R[b][l'] == R'[b][l];
    }
  }
}
