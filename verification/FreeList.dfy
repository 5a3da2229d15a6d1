/** The doubly linked list of free blocks, threaded through the blocks themselves. */
module FreeList {
  import opened Blocks

  predicate Near(x: int, y: int) { x < y + FREE_HEAD && y < x + FREE_HEAD }

  /** Pairwise disjoint headers inside the memory. */
  ghost predicate Spread(m: Mem, N: seq<int>) {
    && (forall k :: 0 <= k < |N| ==> 0 <= N[k] && N[k] + FREE_HEAD <= |m|)
    && (forall i, j :: 0 <= i < j < |N| ==> !Near(N[i], N[j]))
  }

  predicate LinkedAt(m: Mem, N: seq<int>, k: int)
    requires 0 <= k < |N| - 1
    requires 0 <= N[k] && N[k] + FREE_HEAD <= |m| && 0 <= N[k + 1] && N[k + 1] + FREE_HEAD <= |m|
  {
    m[N[k] + 24] == N[k + 1] && m[N[k + 1] + 16] == N[k]
  }

  /** `N` is the list, sentinels included. */
  ghost predicate Chain(m: Mem, N: seq<int>) {
    Spread(m, N) && forall k :: 0 <= k < |N| - 1 ==> LinkedAt(m, N, k)
  }

  /** ptr->next->prev = ptr->prev; ptr->prev->next = ptr->next; */
  function Unlinked(m: Mem, x: int): Mem
    requires 0 <= x && x + FREE_HEAD <= |m|
    requires 0 <= m[x + 24] && m[x + 24] + FREE_HEAD <= |m| && 0 <= m[x + 16] && m[x + 16] + FREE_HEAD <= |m|
    requires !Near(x, m[x + 24])
  {
    m[m[x + 24] + 16 := m[x + 16]][m[x + 16] + 24 := m[x + 24]]
  }

  function Without(N: seq<int>, k: int): seq<int>
    requires 0 <= k < |N|
  {
    N[..k] + N[k + 1..]
  }

  lemma UnlinkChain(m: Mem, N: seq<int>, k: int)
    requires Chain(m, N) && 0 < k < |N| - 1
    ensures m[N[k] + 24] == N[k + 1] && m[N[k] + 16] == N[k - 1] && !Near(N[k], N[k + 1])
    ensures Chain(Unlinked(m, N[k]), Without(N, k))
  {
    assert LinkedAt(m, N, k) && LinkedAt(m, N, k - 1);
    var m' := Unlinked(m, N[k]);
    var N' := Without(N, k);
    forall i | 0 <= i < |N'| - 1 ensures LinkedAt(m', N', i) {
      var j := if i < k then i else i + 1;
      if i != k - 1 { assert LinkedAt(m, N, j) && N'[i + 1] == N[j + 1]; }
    }
  }

  /** Link `x` between `l` and `r`. */
  function Inserted(m: Mem, l: int, x: int, r: int): Mem
    requires 0 <= x && x + FREE_HEAD <= |m| && 0 <= l && l + FREE_HEAD <= |m| && 0 <= r && r + FREE_HEAD <= |m|
  {
    m[x + 24 := r][x + 16 := l][r + 16 := x][l + 24 := x]
  }

  function With(N: seq<int>, k: int, x: int): seq<int>
    requires 0 <= k < |N|
  {
    N[..k + 1] + [x] + N[k + 1..]
  }

  lemma InsertChain(m: Mem, N: seq<int>, k: int, x: int)
    requires Chain(m, N) && 0 <= k < |N| - 1 && 0 <= x && x + FREE_HEAD <= |m|
    requires forall i :: 0 <= i < |N| ==> !Near(x, N[i])
    ensures Chain(Inserted(m, N[k], x, N[k + 1]), With(N, k, x))
  {
    var m' := Inserted(m, N[k], x, N[k + 1]);
    var N' := With(N, k, x);
    forall i | 0 <= i < |N'| - 1 ensures LinkedAt(m', N', i) {
      var j := if i <= k then i else i - 1;
      if i != k && i != k + 1 { assert LinkedAt(m, N, j) && N'[i] == N[j] && N'[i + 1] == N[j + 1]; }
    }
  }

  lemma SameChain(m: Mem, m': Mem, N: seq<int>)
    requires Chain(m, N) && |m'| == |m|
    requires forall k :: 0 <= k < |N| ==> m'[N[k] + 16] == m[N[k] + 16]
    requires forall k :: 0 <= k < |N| ==> m'[N[k] + 24] == m[N[k] + 24]
    ensures Chain(m', N)
  {
    forall k | 0 <= k < |N| - 1 ensures LinkedAt(m', N, k) {
      assert LinkedAt(m, N, k);
    }
  }
}
