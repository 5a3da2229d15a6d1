/** What the models share. */
module Common {

  type Byte = b: int | 0 <= b < 256

  datatype Option<+T> = None | Some(value: T)

  /** Quotient and remainder are unique. */
  lemma DivUnique(x: int, q: int, r: int, len: int)
    requires len > 0 && x == q * len + r && 0 <= r < len
    ensures x % len == r && x / len == q
  {
    var d := x / len - q;
    assert x == len * (x / len) + x % len;
    assert d * len == r - x % len;
    SmallMultiple(d, len);
  }

  lemma SmallMultiple(d: int, len: int)
    requires -len < d * len < len
    ensures d == 0
  {
    assert (d >= 1 ==> d * len >= len) && (d <= -1 ==> d * len <= -len);
  }
}
