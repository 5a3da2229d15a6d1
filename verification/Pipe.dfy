/** struct xpipe as its two ends see it: a byte ring that is a queue of bytes. */
module Pipe {
  import opened Common
  import opened Ring

  class Pipe {
    const buf: array<Byte>
    /** Bytes ever written and ever read. */
    var writer: nat
    var reader: nat

    ghost predicate Valid()
      reads this, buf
    {
      buf.Length > 0 && reader <= writer <= reader + buf.Length
    }

    /** The bytes in the pipe, oldest first. */
    ghost function Contents(): seq<Byte>
      reads this, buf
      requires Valid()
    {
      Window(buf[..], reader, writer - reader)
    }

    /** xpipe_create; `len` is rounded up to a power of two. The pipe can be used exactly when that
        is not zero. */
    constructor (len: nat)
      requires len < WORD
      ensures fresh(buf) && (Valid() <==> Servable(len))
      ensures Servable(len) ==> Contents() == [] && len <= buf.Length < 2 * len && IsPower(buf.Length)
    {
      var size := RoundUp(len);
      buf := new Byte[size](_ => 0);
      writer, reader := 0, 0;
    }

    /** mcopy into the buffer */
    method CopyIn(at: nat, d: seq<Byte>)
      requires at + |d| <= buf.Length
      modifies buf
      ensures buf[..] == old(buf[..at]) + d + old(buf[at + |d|..])
    {
      forall i | 0 <= i < |d| { buf[at + i] := d[i]; }
    }

    /** __xpipe_write: append as much of `data` as there is room for. */
    method Write(data: seq<Byte>) returns (n: nat)
      requires Valid()
      modifies `writer, buf
      ensures Valid() && n <= |data|
      ensures n == |data| || |Contents()| == buf.Length
      ensures Contents() == old(Contents()) + data[..n]
    {
      hide Written, Window;
      n := buf.Length - writer + reader;
      if n > |data| { n := |data|; }
      assert |Window(buf[..], reader, writer - reader)| == writer - reader;
      if n > 0 {
        WindowWritten(buf[..], reader, writer, data[..n]);
        Store(data[..n]);
        writer := writer + n;
      } else {
        assert data[..n] == [];
      }
    }

    /** The one or two copies of a write. */
    method Store(d: seq<Byte>)
      requires Valid() && |d| <= buf.Length
      modifies buf
      ensures buf[..] == Written(old(buf[..]), writer, d)
    {
      hide Written;
      TwoCopies(buf[..], writer, d);
      var at := writer % buf.Length;
      var leftover := buf.Length - at;
      if leftover >= |d| {
        CopyIn(at, d);
      } else {
        CopyIn(at, d[..leftover]);
        CopyIn(0, d[leftover..]);
      }
    }

    /** __xpipe_read: take up to `len` bytes from the front. */
    method Read(len: nat) returns (d: seq<Byte>)
      requires Valid()
      modifies `reader
      ensures Valid() && |d| <= len
      ensures |d| == len || Contents() == []
      ensures old(Contents()) == d + Contents()
    {
      var n := writer - reader;
      if n > len { n := len; }
      d := [];
      if n > 0 {
        TwoReads(buf[..], reader, n);
        WindowSplit(buf[..], reader, writer - reader, n);
        var at := reader % buf.Length;
        var leftover := buf.Length - at;
        if leftover >= n {
          d := buf[at..at + n];
        } else {
          d := buf[at..] + buf[..n - leftover];
        }
        reader := reader + n;
      }
    }
  }

  /** 2^63 */
  const HALF_WORD := 0x8000_0000_0000_0000

  function Power(k: nat): (r: nat)
    ensures r > 0
  {
    if k == 0 then 1 else 2 * Power(k - 1)
  }

  ghost predicate IsPower(n: nat) { exists k: nat :: k <= n && Power(k) == n }

  /** x & y */
  function BitAnd(x: nat, y: nat): nat {
    if x == 0 || y == 0 then 0 else (if x % 2 == 1 && y % 2 == 1 then 1 else 0) + 2 * BitAnd(x / 2, y / 2)
  }

  lemma {:induction false} BitAndSelf(n: nat)
    ensures BitAnd(n, n) == n
  {
    if n > 0 { BitAndSelf(n / 2); }
  }

  /** A number shares no bit with the one below it exactly when it is a power of two. */
  lemma {:induction false} PowerTest(n: nat)
    requires n > 0
    ensures BitAnd(n, n - 1) == 0 <==> IsPower(n)
  {
    var m := n / 2;
    if n == 1 {
      assert Power(0) == 1;
    } else if n % 2 == 1 {
      assert (n - 1) / 2 == m;
      BitAndSelf(m);
    } else {
      assert (n - 1) / 2 == m - 1;
      PowerTest(m);
      PowerDoubles(m);
    }
  }

  lemma PowerDoubles(m: nat)
    requires m > 0
    ensures IsPower(2 * m) <==> IsPower(m)
  {
    if IsPower(m) {
      var k: nat :| k <= m && Power(k) == m;
      assert Power(k + 1) == 2 * m;
    }
    if IsPower(2 * m) {
      var k: nat :| k <= 2 * m && Power(k) == 2 * m;
      assert k > 0 && Power(k - 1) == m;
      PowerGrows(k - 1);
    }
  }

  /** 2^64 */
  const WORD := 0x1_0000_0000_0000_0000

  /** A length the rounding can serve. */
  predicate Servable(len: nat) { 0 < len <= HALF_WORD }

  /** The size rounding of xpipe_create: a power of two is kept, anything else grows to the next
      one, in 64-bit arithmetic. Zero passes for a power of two, and above 2^63 the next power
      wraps to zero. */
  method RoundUp(len: nat) returns (size: nat)
    requires len < WORD
    ensures size > 0 <==> Servable(len)
    ensures Servable(len) ==> IsPower(size) && len <= size
    ensures Servable(len) && IsPower(len) ==> size == len
    ensures Servable(len) && !IsPower(len) ==> size < 2 * len
  {
    if len > 0 {
      PowerTest(len);
      assert (len + WORD - 1) % WORD == len - 1;
    }
    if BitAnd(len, (len + WORD - 1) % WORD) == 0 {
      if len != 0 { PowerInWord(len); }
      return len;
    }
    ghost var k;
    size, k := PowerBelow(len);
    PowerGrows(k);
    assert IsPower(size);
    TopPower(k, len);
    PowerGrows(k + 1);
    size := 2 * size % WORD;
  }

  /** The shifts of the loop but for the last one: the largest power of two up to `len`. */
  method PowerBelow(len: nat) returns (size: nat, ghost k: nat)
    requires len > 0
    ensures size == Power(k) && size <= len < 2 * size
  {
    size, k := 1, 0;
    var rest := len;
    while rest > 1
      invariant size == Power(k) && rest > 0
      invariant rest * size <= len < (rest + 1) * size
      decreases rest
    {
      Halve(rest, size, len);
      size := 2 * size;
      k := k + 1;
      rest := rest / 2;
    }
  }

  lemma {:induction false} PowerMonotone(j: nat, k: nat)
    requires j <= k
    ensures Power(j) <= Power(k)
    ensures j < k ==> 2 * Power(j) <= Power(k)
    decreases k
  {
    if j < k { PowerMonotone(j, k - 1); }
  }

  lemma PowerAdds(k: nat)
    ensures Power(k + 7) == 128 * Power(k)
  {
    assert Power(k + 7) == 2 * Power(k + 6) == 4 * Power(k + 5) == 8 * Power(k + 4);
    assert Power(k + 4) == 2 * Power(k + 3) == 4 * Power(k + 2) == 8 * Power(k + 1);
  }

  lemma PowerZero()
    ensures Power(0) == 1
  {
  }

  lemma Power63()
    ensures Power(63) == HALF_WORD
  {
    hide Power;
    PowerZero();
    PowerAdds(0);
    PowerAdds(7);
    PowerAdds(14);
    PowerAdds(21);
    PowerAdds(28);
    PowerAdds(35);
    PowerAdds(42);
    PowerAdds(49);
    PowerAdds(56);
  }

  /** The largest power of two in 64 bits is 2^63. */
  lemma PowerInWord(len: nat)
    requires len < WORD && IsPower(len)
    ensures len <= HALF_WORD
  {
    var k: nat :| k <= len && Power(k) == len;
    Power63();
    if k > 63 { PowerMonotone(63, k); } else { PowerMonotone(k, 63); }
  }

  /** Doubling the power below `len` wraps exactly above 2^63. */
  lemma TopPower(k: nat, len: nat)
    requires Power(k) <= len < 2 * Power(k) && len < WORD && Power(k) != len
    ensures if len <= HALF_WORD then 2 * Power(k) < WORD else 2 * Power(k) == WORD
  {
    Power63();
    if k < 63 { PowerMonotone(k, 63); } else { PowerMonotone(63, k); }
  }

  lemma Halve(rest: nat, h: nat, len: nat)
    requires rest * h <= len < (rest + 1) * h
    ensures rest / 2 * (2 * h) <= len < (rest / 2 + 1) * (2 * h)
  {
    var m := rest / 2;
    assert m * (2 * h) == (2 * m) * h;
    assert (m + 1) * (2 * h) == (2 * m + 2) * h;
    if rest == 2 * m {
      assert (2 * m + 2) * h == (rest + 1) * h + h;
    } else {
      assert rest == 2 * m + 1;
      assert (2 * m) * h == rest * h - h;
    }
  }

  lemma {:induction false} PowerGrows(k: nat)
    ensures Power(k) > k
  {
    if k > 0 { PowerGrows(k - 1); }
  }
}
