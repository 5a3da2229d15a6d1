/** Positions in a ring of `len` cells. */
module Ring {
  import opened Common

  /** Stepping `i` cells on from position `w` either stays before the end or wraps once. */
  lemma Step(w: nat, i: nat, len: nat)
    requires 0 < len && i <= len
    ensures (w + i) % len == if w % len + i < len then w % len + i else w % len + i - len
  {
    var q, r := w / len, w % len;
    assert w == q * len + r;
    if r + i < len {
      DivUnique(w + i, q, r + i, len);
    } else if r + i - len < len {
      assert w + i == (q + 1) * len + (r + i - len);
      DivUnique(w + i, q + 1, r + i - len, len);
    }
  }

  /** Fewer than `len` apart means different cells. */
  lemma Distinct(a: nat, b: nat, len: nat)
    requires 0 < len && a < b < a + len
    ensures a % len != b % len
  {
    Step(a, b - a, len);
  }

  /** `n` cells from position `from` on. */
  function Window(buf: seq<Byte>, from: nat, n: nat): (r: seq<Byte>)
    requires |buf| > 0
    ensures |r| == n
  {
    seq(n, i requires 0 <= i < n => buf[(from + i) % |buf|])
  }

  /** The ring after `d` was written from position `w` on. */
  function Written(buf: seq<Byte>, w: nat, d: seq<Byte>): (r: seq<Byte>)
    requires |buf| > 0
    ensures |r| == |buf|
  {
    seq(|buf|, j requires 0 <= j < |buf| =>
      if (j - w) % |buf| < |d| then d[(j - w) % |buf|] else buf[j])
  }

  lemma Offset(w: nat, x: nat, len: nat)
    requires 0 < len && w <= x < w + len
    ensures (x % len - w) % len == x - w
  {
    var q := x / len;
    assert x % len - w == (-q) * len + (x - w);
    DivUnique(x % len - w, -q, x - w, len);
  }

  /** What was written is read back, and positions up to a ring's length before it that were
      not overwritten keep their bytes. */
  lemma ReadBack(buf: seq<Byte>, w: nat, d: seq<Byte>, x: nat)
    requires |buf| > 0 && |d| <= |buf| && x < w + |d| <= x + |buf|
    ensures Written(buf, w, d)[x % |buf|] == if x < w then buf[x % |buf|] else d[x - w]
  {
    var len := |buf|;
    if w <= x {
      Offset(w, x, len);
    } else {
      Step(x, len, len);
      Offset(w, x + len, len);
    }
  }

  /** Appending: the window grows by what was written. */
  lemma WindowWritten(buf: seq<Byte>, from: nat, w: nat, d: seq<Byte>)
    requires |buf| > 0 && from <= w && w + |d| <= from + |buf|
    ensures Window(Written(buf, w, d), from, w - from + |d|) == Window(buf, from, w - from) + d
  {
    var n := w - from + |d|;
    forall i | 0 <= i < n
      ensures Window(Written(buf, w, d), from, n)[i] == (Window(buf, from, w - from) + d)[i]
    {
      ReadBack(buf, w, d, from + i);
    }
  }

  lemma WindowSplit(buf: seq<Byte>, from: nat, n: nat, k: nat)
    requires |buf| > 0 && k <= n
    ensures Window(buf, from, n)[..k] == Window(buf, from, k)
    ensures Window(buf, from, n)[k..] == Window(buf, from + k, n - k)
  {
    forall i | 0 <= i < n - k ensures Window(buf, from, n)[k..][i] == Window(buf, from + k, n - k)[i] {
      assert from + (k + i) == from + k + i;
    }
  }

  /** How far cell `j` is behind position `w`, counted round the ring. */
  lemma CellOffset(w: nat, j: nat, len: nat)
    requires j < len
    ensures (j - w) % len == if w % len <= j then j - w % len else j - w % len + len
  {
    var at, q := w % len, w / len;
    assert w == q * len + at;
    if at <= j {
      DivUnique(j - w, -q, j - at, len);
    } else {
      assert j - w == (-q - 1) * len + (j - at + len);
      DivUnique(j - w, -q - 1, j - at + len, len);
    }
  }

  /** A write that runs over the end of the buffer is two copies. */
  lemma TwoCopies(buf: seq<Byte>, w: nat, d: seq<Byte>)
    requires |buf| > 0 && |d| <= |buf|
    ensures var at, len := w % |buf|, |buf|;
            Written(buf, w, d) ==
            if at + |d| <= len then buf[..at] + d + buf[at + |d|..]
            else d[len - at..] + buf[at + |d| - len..at] + d[..len - at]
  {
    var at, len := w % |buf|, |buf|;
    var r := if at + |d| <= len then buf[..at] + d + buf[at + |d|..]
             else d[len - at..] + buf[at + |d| - len..at] + d[..len - at];
    forall j | 0 <= j < len ensures Written(buf, w, d)[j] == r[j] { CellOffset(w, j, len); }
  }

  /** A read that runs over the end of the buffer is two copies. */
  lemma TwoReads(buf: seq<Byte>, from: nat, n: nat)
    requires |buf| > 0 && n <= |buf|
    ensures var at, len := from % |buf|, |buf|;
            Window(buf, from, n) ==
            if at + n <= len then buf[at..at + n] else buf[at..] + buf[..at + n - len]
  {
    var at, len := from % |buf|, |buf|;
    var r := if at + n <= len then buf[at..at + n] else buf[at..] + buf[..at + n - len];
    forall i | 0 <= i < n ensures Window(buf, from, n)[i] == r[i] {
      Step(from, i, len);
    }
  }
}
