/** The xline format of src/xnet/xline.h: what a line is made of, and what a parser sees in it. */
module XlineFormat {
  import opened Common

  // ---------------------------------------------------------------- numbers

  const U64: nat := 0x1_0000_0000_0000_0000
  const HALF: int := 0x8000_0000_0000_0000
  const XLINE_SIZE: nat := 9
  const MAX_KEY: nat := 64

  const T_INT: Byte := 0x01
  const T_UINT: Byte := 0x02
  const T_REAL: Byte := 0x04
  const T_STR: Byte := 0x08
  const T_BIN: Byte := 0x10
  const T_OBJ: Byte := 0x20
  const T_LIST: Byte := 0x40

  function Pow256(k: nat): nat { if k == 0 then 1 else 256 * Pow256(k - 1) }

  /** The bytes of a number in memory, lowest first. */
  function Digits(n: nat, k: nat): (s: seq<Byte>)
    ensures |s| == k
  {
    if k == 0 then [] else [n % 256] + Digits(n / 256, k - 1)
  }

  /** The shifts and ors of __xl_b2n. */
  function Number(s: seq<Byte>): nat {
    if s == [] then 0 else s[0] + 256 * Number(s[1..])
  }

  lemma {:induction false} NumberOfDigits(n: nat, k: nat)
    requires n < Pow256(k)
    ensures Number(Digits(n, k)) == n
    decreases k
  {
    if k > 0 {
      NumberOfDigits(n / 256, k - 1);
      assert Digits(n, k)[1..] == Digits(n / 256, k - 1);
    }
  }

  lemma {:induction false} DigitsOfNumber(s: seq<Byte>)
    ensures Number(s) < Pow256(|s|) && Digits(Number(s), |s|) == s
  {
    if s != [] {
      var m := Number(s[1..]);
      DigitsOfNumber(s[1..]);
      LowByte(s[0], m);
      assert Digits(Number(s), |s|) == [s[0]] + Digits(m, |s| - 1);
    }
  }

  lemma LowByte(d: Byte, m: nat)
    ensures (d + 256 * m) % 256 == d && (d + 256 * m) / 256 == m
  {}

  lemma EightBytes()
    ensures Pow256(8) == U64
  {
    assert Pow256(4) == 256 * Pow256(3) == 256 * 256 * Pow256(2) == 256 * 256 * 256 * Pow256(1) == 0x1_0000_0000;
    assert Pow256(8) == 256 * Pow256(7) == 256 * 256 * Pow256(6) == 256 * 256 * 256 * Pow256(5);
  }

  function Reverse(s: seq<Byte>): seq<Byte> { if s == [] then [] else Reverse(s[1..]) + [s[0]] }

  lemma {:induction false} ReverseTwice(s: seq<Byte>)
    ensures |Reverse(s)| == |s| && forall i :: 0 <= i < |s| ==> Reverse(s)[i] == s[|s| - 1 - i]
  {
    if s != [] { ReverseTwice(s[1..]); }
  }

  /** The branch for other byte orders writes the lowest byte first as well, but reads it as the
      highest: it gives a number back exactly when its eight bytes read the same both ways. */
  lemma BigEndianIffPalindrome(n: nat)
    requires n < U64
    ensures Number(Reverse(Digits(n, 8))) == n <==> Reverse(Digits(n, 8)) == Digits(n, 8)
  {
    EightBytes();
    NumberOfDigits(n, 8);
    ReverseTwice(Digits(n, 8));
    DigitsOfNumber(Reverse(Digits(n, 8)));
  }

  lemma BigEndianFails()
    ensures Number(Reverse(Digits(1, 8))) != 1
  {
    BigEndianIffPalindrome(1);
    assert Digits(1, 8) == [1] + Digits(0, 7);
    hide Number, Reverse, Digits;
    ReverseTwice(Digits(1, 8));
    ZeroDigits(7);
    assert Reverse(Digits(1, 8))[0] == Digits(0, 7)[6] == 0;
  }

  lemma {:induction false} ZeroDigits(k: nat)
    ensures forall i :: 0 <= i < k ==> Digits(0, k)[i] == 0
  {
    if k > 0 { ZeroDigits(k - 1); }
  }

  // ---------------------------------------------------------------- lines

  /** __xl_n2b: a type and a number, nine bytes. */
  function Head(t: Byte, n: nat): (s: seq<Byte>)
    ensures |s| == XLINE_SIZE
  {
    [t] + Digits(n % U64, 8)
  }

  /** __xl_b2n of the nine bytes at `at`. */
  function HeadNumber(b: seq<Byte>, at: nat): nat
    requires at + XLINE_SIZE <= |b|
  {
    Number(b[at + 1..at + XLINE_SIZE])
  }

  /** `b` holds the bytes `s` at `at`. */
  predicate Holds(b: seq<Byte>, at: nat, s: seq<Byte>) {
    at + |s| <= |b| && b[at..at + |s|] == s
  }

  /** Bytes written over the ones at `pos`. */
  function Patched(c: seq<Byte>, pos: nat, head: seq<Byte>): seq<Byte>
    requires pos + |head| <= |c|
  {
    c[..pos] + head + c[pos + |head|..]
  }

  lemma HoldsParts(b: seq<Byte>, at: nat, s: seq<Byte>, t: seq<Byte>)
    ensures Holds(b, at, s + t) <==> Holds(b, at, s) && Holds(b, at + |s|, t)
  {
    if Holds(b, at, s + t) {
      assert b[at..at + |s|] == (s + t)[..|s|];
      assert b[at + |s|..at + |s| + |t|] == (s + t)[|s|..];
    }
    if Holds(b, at, s) && Holds(b, at + |s|, t) {
      assert b[at..at + |s + t|] == b[at..at + |s|] + b[at + |s|..at + |s| + |t|];
    }
  }

  lemma HeadParts(t: Byte, n: nat)
    requires n < U64
    ensures Head(t, n)[0] == t && Number(Head(t, n)[1..]) == n
  {
    EightBytes();
    NumberOfDigits(n, 8);
    hide Number, Digits, Pow256;
    assert n % U64 == n;
    assert ([t] + Digits(n, 8))[1..] == Digits(n, 8);
  }

  lemma HeadReads(b: seq<Byte>, at: nat, t: Byte, n: nat)
    requires Holds(b, at, Head(t, n)) && n < U64
    ensures at + XLINE_SIZE <= |b| && b[at] == t && HeadNumber(b, at) == n
  {
    HeadParts(t, n);
    hide Number, Head;
    var h := Head(t, n);
    assert b[at..at + XLINE_SIZE] == h;
    assert b[at] == h[0];
    assert b[at + 1..at + XLINE_SIZE] == h[1..];
  }

  // ---------------------------------------------------------------- trees

  type Key = seq<Byte>

  /** What a line can hold. A real is its eight bytes. */
  datatype Value =
    | Int(i: int)
    | UInt(u: nat)
    | Real(bits: nat)
    | Str(s: seq<Byte>)
    | Bin(s: seq<Byte>)
    | Obj(entries: Entries)
    | List(items: Items)

  datatype Entries = NoEntry | Entry(key: Key, value: Value, rest: Entries)
  datatype Items = NoItem | Item(value: Value, rest: Items)

  /** __xl_fill_key cuts a key to 64 bytes. */
  function CutKey(k: Key): (r: Key)
    ensures |r| <= MAX_KEY && (r == k <==> |k| <= MAX_KEY)
  {
    if |k| > MAX_KEY then k[..MAX_KEY] else k
  }

  /** A length byte, the key, and a zero. */
  function EncKey(k: Key): (s: seq<Byte>)
    ensures |s| == |CutKey(k)| + 2
  {
    [|CutKey(k)| + 1] + CutKey(k) + [0]
  }

  function Enc(v: Value): (s: seq<Byte>)
    ensures |s| >= XLINE_SIZE
  {
    match v
    case Int(i) => Head(T_INT, i % U64)
    case UInt(u) => Head(T_UINT, u)
    case Real(bits) => Head(T_REAL, bits)
    case Str(s) => Head(T_STR, |s|) + s
    case Bin(s) => Head(T_BIN, |s|) + s
    case Obj(es) => Head(T_OBJ, |EncEntries(es)|) + EncEntries(es)
    case List(vs) => Head(T_LIST, |EncItems(vs)|) + EncItems(vs)
  }

  function EncEntries(es: Entries): seq<Byte> {
    match es
    case NoEntry => []
    case Entry(k, v, rest) => EncKey(k) + Enc(v) + EncEntries(rest)
  }

  function EncItems(vs: Items): seq<Byte> {
    match vs
    case NoItem => []
    case Item(v, rest) => Enc(v) + EncItems(rest)
  }

  // ---------------------------------------------------------------- byte by byte

  lemma DivTwice(n: nat, p: nat)
    requires p > 0
    ensures n / 256 / p == n / (256 * p)
  {
    var q, r := n / 256 / p, n / 256 % p;
    assert n / 256 == q * p + r;
    var rest := 256 * r + n % 256;
    assert n == q * (256 * p) + rest by { assert 256 * (q * p) == q * (256 * p); }
    assert 0 <= rest < 256 * p;
    DivUnique(n, q, rest, 256 * p);
  }

  lemma {:induction false} DigitAt(n: nat, k: nat, i: nat)
    requires i < k
    ensures Pow256(i) > 0 && Digits(n, k)[i] == n / Pow256(i) % 256
    decreases i
  {
    if i > 0 {
      DigitAt(n / 256, k - 1, i - 1);
      DivTwice(n, Pow256(i - 1));
    }
  }

  /** The type byte of a line, as the enum of the source numbers the types. */
  function TypeByte(v: Value): Byte {
    match v
    case Int(_) => 1
    case UInt(_) => 2
    case Real(_) => 4
    case Str(_) => 8
    case Bin(_) => 16
    case Obj(_) => 32
    case List(_) => 64
  }

  /** What stands behind the nine bytes. */
  function Payload(v: Value): seq<Byte> {
    match v
    case Str(s) => s
    case Bin(s) => s
    case Obj(es) => EncEntries(es)
    case List(vs) => EncItems(vs)
    case _ => []
  }

  /** The number in a line: its own, a negative one in two's complement, or the length of what
      follows. */
  function Field(v: Value): int {
    match v
    case Int(i) => if i < 0 then i + 0x1_0000_0000_0000_0000 else i
    case UInt(u) => u
    case Real(bits) => bits
    case _ => |Payload(v)|
  }

  /** A line byte by byte: the type, the number with its lowest byte first, and what follows. */
  lemma LineBytes(v: Value, i: nat)
    requires Fits(v) && Field(v) < 0x1_0000_0000_0000_0000 && i < 8
    ensures |Enc(v)| == 9 + |Payload(v)| && Enc(v)[0] == TypeByte(v) && Enc(v)[9..] == Payload(v)
    ensures 0 <= Field(v) && Pow256(i) > 0 && Enc(v)[1 + i] == Field(v) / Pow256(i) % 256
  {
    hide Digits, Pow256, EncEntries, EncItems, EntriesFit, ItemsFit;
    DigitAt(Field(v), 8, i);
    assert Field(v) % U64 == Field(v);
    if v.Int? && v.i < 0 { assert v.i % U64 == v.i + U64; }
    assert Enc(v) == [TypeByte(v)] + Digits(Field(v), 8) + Payload(v);
  }

  /** A key byte by byte. */
  lemma EncKeyBytes(k: Key)
    ensures |k| <= 64 ==> EncKey(k) == [|k| + 1] + k + [0]
    ensures |k| > 64 ==> EncKey(k) == [65] + k[..64] + [0]
  {
  }

  /** The numbers fit their 64 bits. */
  predicate Fits(v: Value) {
    match v
    case Int(i) => -HALF <= i < HALF
    case UInt(u) => u < U64
    case Real(bits) => bits < U64
    case Str(s) => true
    case Bin(s) => true
    case Obj(es) => EntriesFit(es)
    case List(vs) => ItemsFit(vs)
  }

  predicate EntriesFit(es: Entries) { es.Entry? ==> Fits(es.value) && EntriesFit(es.rest) }
  predicate ItemsFit(vs: Items) { vs.Item? ==> Fits(vs.value) && ItemsFit(vs.rest) }

  /** The tree with its keys cut. */
  function Cut(v: Value): Value {
    match v
    case Obj(es) => Obj(CutEntries(es))
    case List(vs) => List(CutItems(vs))
    case Int(_) => v
    case UInt(_) => v
    case Real(_) => v
    case Str(_) => v
    case Bin(_) => v
  }

  function CutEntries(es: Entries): Entries {
    match es
    case NoEntry => NoEntry
    case Entry(k, v, rest) => Entry(CutKey(k), Cut(v), CutEntries(rest))
  }

  function CutItems(vs: Items): Items {
    match vs
    case NoItem => NoItem
    case Item(v, rest) => Item(Cut(v), CutItems(rest))
  }

  predicate KeysFit(v: Value) {
    (v.Obj? ==> EntryKeysFit(v.entries)) && (v.List? ==> ItemKeysFit(v.items))
  }

  predicate EntryKeysFit(es: Entries) {
    es.Entry? ==> |es.key| <= MAX_KEY && KeysFit(es.value) && EntryKeysFit(es.rest)
  }

  predicate ItemKeysFit(vs: Items) { vs.Item? ==> KeysFit(vs.value) && ItemKeysFit(vs.rest) }

  // ---------------------------------------------------------------- parsing

  /** __xl_sizeof_line */
  function SizeOfLine(b: seq<Byte>, at: nat): nat
    requires at + XLINE_SIZE <= |b|
  {
    if b[at] <= T_REAL then XLINE_SIZE else HeadNumber(b, at) + XLINE_SIZE
  }

  /** __xl_sizeof_body */
  function SizeOfBody(b: seq<Byte>, at: nat): nat
    requires at + XLINE_SIZE <= |b|
  {
    if b[at] <= T_REAL then 8 else HeadNumber(b, at)
  }

  /** The sizes of a line that holds a value: eight bytes of a number, or what follows. */
  lemma LineSizes(v: Value)
    requires Fits(v) && Field(v) < 0x1_0000_0000_0000_0000
    ensures SizeOfLine(Enc(v), 0) == |Enc(v)|
    ensures SizeOfBody(Enc(v), 0) == if v.Int? || v.UInt? || v.Real? then 8 else |Payload(v)|
  {
    hide Digits, Number, EncEntries, EncItems, EntriesFit, ItemsFit;
    LineBytes(v, 0);
    if !(v.Int? || v.UInt? || v.Real?) {
      HeadParts(TypeByte(v), |Payload(v)|);
      assert Enc(v) == Head(TypeByte(v), |Payload(v)|) + Payload(v);
      assert Enc(v)[1..9] == Head(TypeByte(v), |Payload(v)|)[1..];
    }
  }

  /** __xl_b2i: the number as a signed one. */
  function Signed(n: nat): int { if n < HALF then n else n - U64 }

  /** What the parser sees in the line at `at` is `v`: scalars by the conversion macros, objects
      by calling xl_next, lists by calling xl_list_next, until they return NULL. */
  predicate Sees(b: seq<Byte>, at: nat, v: Value)
    decreases v
  {
    at + XLINE_SIZE <= |b| &&
    match v
    case Int(i) => b[at] == T_INT && Signed(HeadNumber(b, at)) == i
    case UInt(u) => b[at] == T_UINT && HeadNumber(b, at) == u
    case Real(bits) => b[at] == T_REAL && HeadNumber(b, at) == bits
    case Str(s) => b[at] == T_STR && SizeOfBody(b, at) == |s| && Holds(b, at + XLINE_SIZE, s)
    case Bin(s) => b[at] == T_BIN && SizeOfBody(b, at) == |s| && Holds(b, at + XLINE_SIZE, s)
    case Obj(es) => b[at] == T_OBJ && SeesEntries(b, at + XLINE_SIZE, at + XLINE_SIZE + SizeOfBody(b, at), es)
    case List(vs) => b[at] == T_LIST && SeesItems(b, at + XLINE_SIZE, at + XLINE_SIZE + SizeOfBody(b, at), vs)
  }

  /** Where the value of the entry at `r` starts: xl_next skips the length byte, the key and the
      zero. */
  function ValueAt(b: seq<Byte>, r: nat): nat
    requires r < |b|
  {
    r + b[r] + 1
  }

  predicate SeesKey(b: seq<Byte>, r: nat, k: Key) {
    r < |b| && b[r] == |k| + 1 && Holds(b, r + 1, k + [0])
  }

  predicate SeesEntries(b: seq<Byte>, r: nat, w: nat, es: Entries)
    decreases es
  {
    match es
    case NoEntry => r >= w
    case Entry(k, v, rest) =>
      && r < w && SeesKey(b, r, k) && Sees(b, ValueAt(b, r), v)
      && SeesEntries(b, ValueAt(b, r) + SizeOfLine(b, ValueAt(b, r)), w, rest)
  }

  predicate SeesItems(b: seq<Byte>, r: nat, w: nat, vs: Items)
    decreases vs
  {
    match vs
    case NoItem => r >= w
    case Item(v, rest) => r < w && Sees(b, r, v) && SeesItems(b, r + SizeOfLine(b, r), w, rest)
  }

  /** A line holds one tree only. */
  lemma {:induction false} SeesOne(b: seq<Byte>, at: nat, v: Value, v': Value)
    requires Sees(b, at, v) && Sees(b, at, v')
    ensures v == v'
    decreases v
  {
    match v
    case Obj(es) => SeesOneEntries(b, at + XLINE_SIZE, at + XLINE_SIZE + SizeOfBody(b, at), es, v'.entries);
    case List(vs) => SeesOneItems(b, at + XLINE_SIZE, at + XLINE_SIZE + SizeOfBody(b, at), vs, v'.items);
    case Int(_) =>
    case UInt(_) =>
    case Real(_) =>
    case Str(_) =>
    case Bin(_) =>
  }

  lemma {:induction false} SeesOneEntries(b: seq<Byte>, r: nat, w: nat, es: Entries, es': Entries)
    requires SeesEntries(b, r, w, es) && SeesEntries(b, r, w, es')
    ensures es == es'
    decreases es
  {
    if es.Entry? {
      SeesOneKey(b, r, es.key, es'.key);
      SeesOne(b, ValueAt(b, r), es.value, es'.value);
      SeesOneEntries(b, ValueAt(b, r) + SizeOfLine(b, ValueAt(b, r)), w, es.rest, es'.rest);
    }
  }

  lemma SeesOneKey(b: seq<Byte>, r: nat, k: Key, k': Key)
    requires SeesKey(b, r, k) && SeesKey(b, r, k')
    ensures k == k'
  {
    assert (k + [0])[..|k|] == k && (k' + [0])[..|k'|] == k';
  }

  lemma {:induction false} SeesOneItems(b: seq<Byte>, r: nat, w: nat, vs: Items, vs': Items)
    requires SeesItems(b, r, w, vs) && SeesItems(b, r, w, vs')
    ensures vs == vs'
    decreases vs
  {
    if vs.Item? {
      SeesOne(b, r, vs.value, vs'.value);
      SeesOneItems(b, r + SizeOfLine(b, r), w, vs.rest, vs'.rest);
    }
  }

  // ---------------------------------------------------------------- encoded lines

  lemma KeySeen(b: seq<Byte>, r: nat, k: Key)
    requires Holds(b, r, EncKey(k))
    ensures SeesKey(b, r, CutKey(k)) && ValueAt(b, r) == r + |EncKey(k)|
  {
    var c := CutKey(k);
    assert EncKey(k) == [|c| + 1] + (c + [0]);
    HoldsParts(b, r, [|c| + 1], c + [0]);
    assert b[r..r + 1][0] == |c| + 1;
  }

  /** Wherever the encoding of a tree stands, the parser sees that tree there, its keys cut to 64
      bytes, and steps over exactly its bytes. */
  lemma {:induction false} EncodingSeen(b: seq<Byte>, at: nat, v: Value)
    requires Holds(b, at, Enc(v)) && Fits(v) && |Enc(v)| < U64
    ensures Sees(b, at, Cut(v)) && at + XLINE_SIZE <= |b| && SizeOfLine(b, at) == |Enc(v)|
    decreases v
  {
    hide Head, HeadNumber, Number, Digits, Holds, SeesEntries, SeesItems, EncEntries, EncItems;
    match v
    case Int(i) => HeadReads(b, at, T_INT, i % U64); SignedBack(i);
    case UInt(u) => HeadReads(b, at, T_UINT, u);
    case Real(bits) => HeadReads(b, at, T_REAL, bits);
    case Str(s) =>
      HoldsParts(b, at, Head(T_STR, |s|), s);
      HeadReads(b, at, T_STR, |s|);
    case Bin(s) =>
      HoldsParts(b, at, Head(T_BIN, |s|), s);
      HeadReads(b, at, T_BIN, |s|);
    case Obj(es) =>
      HoldsParts(b, at, Head(T_OBJ, |EncEntries(es)|), EncEntries(es));
      HeadReads(b, at, T_OBJ, |EncEntries(es)|);
      EntriesSeen(b, at + XLINE_SIZE, es);
    case List(vs) =>
      HoldsParts(b, at, Head(T_LIST, |EncItems(vs)|), EncItems(vs));
      HeadReads(b, at, T_LIST, |EncItems(vs)|);
      ItemsSeen(b, at + XLINE_SIZE, vs);
  }

  lemma {:induction false} EntriesSeen(b: seq<Byte>, r: nat, es: Entries)
    requires Holds(b, r, EncEntries(es)) && EntriesFit(es) && |EncEntries(es)| < U64
    ensures SeesEntries(b, r, r + |EncEntries(es)|, CutEntries(es))
    decreases es
  {
    hide Holds, Enc, Sees, EncKey, SeesKey, HeadNumber, Number, Fits, Cut, CutKey;
    if es.Entry? {
      var k, v, rest := EncKey(es.key), Enc(es.value), EncEntries(es.rest);
      HoldsParts(b, r, k + v, rest);
      HoldsParts(b, r, k, v);
      KeySeen(b, r, es.key);
      EncodingSeen(b, r + |k|, es.value);
      EntriesSeen(b, r + |k| + |v|, es.rest);
    }
  }

  lemma {:induction false} ItemsSeen(b: seq<Byte>, r: nat, vs: Items)
    requires Holds(b, r, EncItems(vs)) && ItemsFit(vs) && |EncItems(vs)| < U64
    ensures SeesItems(b, r, r + |EncItems(vs)|, CutItems(vs))
    decreases vs
  {
    hide Holds, Enc, Sees, HeadNumber, Number, Fits, Cut;
    if vs.Item? {
      HoldsParts(b, r, Enc(vs.value), EncItems(vs.rest));
      EncodingSeen(b, r, vs.value);
      ItemsSeen(b, r + |Enc(vs.value)|, vs.rest);
    }
  }

  lemma SignedBack(i: int)
    requires -HALF <= i < HALF
    ensures Signed(i % U64) == i
  {}

  lemma {:induction false} CutIffFits(v: Value)
    ensures Cut(v) == v <==> KeysFit(v)
    decreases v
  {
    if v.Obj? { CutEntriesIffFit(v.entries); }
    if v.List? { CutItemsIffFit(v.items); }
  }

  lemma {:induction false} CutEntriesIffFit(es: Entries)
    ensures CutEntries(es) == es <==> EntryKeysFit(es)
    decreases es
  {
    if es.Entry? { CutIffFits(es.value); CutEntriesIffFit(es.rest); }
  }

  lemma {:induction false} CutItemsIffFit(vs: Items)
    ensures CutItems(vs) == vs <==> ItemKeysFit(vs)
    decreases vs
  {
    if vs.Item? { CutIffFits(vs.value); CutItemsIffFit(vs.rest); }
  }

  /** Writing a tree and parsing it gives the same tree back, and no other, exactly when no key
      is longer than 64 bytes. */
  lemma RoundTripIff(b: seq<Byte>, at: nat, v: Value)
    requires Holds(b, at, Enc(v)) && Fits(v) && |Enc(v)| < U64
    ensures Sees(b, at, v) <==> KeysFit(v)
    ensures forall v' :: Sees(b, at, v') ==> v' == Cut(v)
  {
    EncodingSeen(b, at, v);
    CutIffFits(v);
    forall v' | Sees(b, at, v') ensures v' == Cut(v) { SeesOne(b, at, v', Cut(v)); }
  }
}
