/** The cursor of src/xnet/xline.h: stepping through an object and looking up keys. */
module XlineParser {
  import opened Common
  import opened XlineFormat

  function Join(a: Entries, b: Entries): Entries {
    match a
    case NoEntry => b
    case Entry(k, v, rest) => Entry(k, v, Join(rest, b))
  }

  /** Where the entry behind the one at `r` starts. */
  function Step(b: seq<Byte>, r: nat): nat
    requires r < |b| && ValueAt(b, r) + XLINE_SIZE <= |b|
  {
    ValueAt(b, r) + SizeOfLine(b, ValueAt(b, r))
  }

  /** Reading from `r`, the parser sees `front` and then stands at `pos` with `back` to come. */
  predicate Cursor(b: seq<Byte>, r: nat, w: nat, front: Entries, back: Entries, pos: nat)
    decreases front
  {
    match front
    case NoEntry => pos == r && SeesEntries(b, r, w, back)
    case Entry(k, v, rest) =>
      r < w && SeesKey(b, r, k) && Sees(b, ValueAt(b, r), v) && Cursor(b, Step(b, r), w, rest, back, pos)
  }

  /** The value of the first entry with this key. */
  function Lookup(es: Entries, key: Key): Option<Value> {
    match es
    case NoEntry => None
    case Entry(k, v, rest) => if k == key then Some(v) else Lookup(rest, key)
  }

  /** What a search from a cursor looks at first: what is ahead, then what is behind. */
  function LookupFrom(front: Entries, back: Entries, key: Key): Option<Value> {
    if Lookup(back, key).Some? then Lookup(back, key) else Lookup(front, key)
  }

  function Occurs(es: Entries, key: Key): nat {
    match es
    case NoEntry => 0
    case Entry(k, _, rest) => (if k == key then 1 else 0) + Occurs(rest, key)
  }

  lemma {:induction false} OccursIff(es: Entries, key: Key)
    ensures Lookup(es, key).Some? <==> Occurs(es, key) > 0
  {
    if es.Entry? { OccursIff(es.rest, key); }
  }

  /** A key that occurs at most once is found from every cursor, and always the same. */
  lemma {:induction false} UniqueFromAnywhere(front: Entries, back: Entries, key: Key)
    requires Occurs(Join(front, back), key) <= 1
    ensures LookupFrom(front, back, key) == Lookup(Join(front, back), key)
    decreases front
  {
    OccursIff(back, key);
    if front.Entry? {
      UniqueFromAnywhere(front.rest, back, key);
      OccursJoin(front.rest, back, key);
    }
  }

  lemma {:induction false} OccursJoin(front: Entries, back: Entries, key: Key)
    ensures Occurs(Join(front, back), key) == Occurs(front, key) + Occurs(back, key)
    decreases front
  {
    if front.Entry? { OccursJoin(front.rest, back, key); }
  }

  /** A key of more than 64 bytes is stored cut, and so is never found again. */
  lemma {:induction false} LongKeyLost(es: Entries, key: Key)
    requires |key| > MAX_KEY
    ensures Lookup(CutEntries(es), key) == None
  {
    if es.Entry? { LongKeyLost(es.rest, key); }
  }

  lemma {:induction false} CursorAhead(b: seq<Byte>, r: nat, w: nat, front: Entries, back: Entries, pos: nat)
    requires Cursor(b, r, w, front, back, pos)
    ensures r <= pos && (front.Entry? <==> r < pos) && SeesEntries(b, pos, w, back)
    ensures SeesEntries(b, r, w, Join(front, back))
    ensures back.Entry? <==> pos < w
    decreases front
  {
    if front.Entry? { CursorAhead(b, Step(b, r), w, front.rest, back, pos); }
  }

  /** The cursor steps over one entry. */
  lemma {:induction false} CursorSteps(b: seq<Byte>, r: nat, w: nat, front: Entries, back: Entries, pos: nat)
    requires Cursor(b, r, w, front, back, pos) && back.Entry?
    ensures pos < |b| && ValueAt(b, pos) + XLINE_SIZE <= |b| && pos < w
    ensures SeesKey(b, pos, back.key) && Sees(b, ValueAt(b, pos), back.value)
    ensures Cursor(b, r, w, Join(front, Entry(back.key, back.value, NoEntry)), back.rest, Step(b, pos))
    ensures Join(Join(front, Entry(back.key, back.value, NoEntry)), back.rest) == Join(front, back)
    decreases front
  {
    if front.Entry? {
      CursorSteps(b, Step(b, r), w, front.rest, back, pos);
    } else {
      SeesInside(b, ValueAt(b, pos), back.value);
      hide Sees, SizeOfLine, Holds;
      assert SeesEntries(b, Step(b, pos), w, back.rest);
      assert Join(NoEntry, Entry(back.key, back.value, NoEntry)) == Entry(back.key, back.value, NoEntry);
    }
  }

  lemma SeesInside(b: seq<Byte>, at: nat, v: Value)
    requires Sees(b, at, v)
    ensures at + XLINE_SIZE <= |b|
  {}

  /** A cursor further on is reached from one before it. */
  lemma {:induction false} CursorBetween(b: seq<Byte>, w: nat, m: Entries, back: Entries, r: nat, pos: nat)
    requires Cursor(b, r, w, m, back, pos) && m.Entry?
    ensures r < |b| && ValueAt(b, r) + XLINE_SIZE <= |b| && Cursor(b, Step(b, r), w, m.rest, back, pos)
  {
    SeesInside(b, ValueAt(b, r), m.value);
  }

  /** The comparison of xl_find: the length byte first, then the key with its zero. */
  lemma KeyMatches(b: seq<Byte>, r: nat, k: Key, key: Key)
    requires SeesKey(b, r, k)
    ensures |key| + 1 == b[r] && r + 1 + b[r] <= |b| && b[r + 1..r + 1 + b[r]] == key + [0] <==> k == key
    ensures r + 1 + b[r] <= |b|
  {
    assert b[r + 1..r + 1 + b[r]] == k + [0];
    assert (k + [0])[..|k|] == k && (key + [0])[..|key|] == key;
  }

  /** struct xparser; positions are relative to `ptr`, `mem` is the memory from there on. */
  class Parser {
    var mem: seq<Byte>
    var rpos: nat
    var wpos: nat
    var key: nat
    var val: Option<nat>

    /** xl_parser on the line at `at` of a memory. */
    constructor (b: seq<Byte>, at: nat)
      requires at + XLINE_SIZE <= |b|
      ensures rpos == 0 && wpos == SizeOfBody(b, at) && mem == b[at + XLINE_SIZE..] && key == 0 && val == None
    {
      mem := b[at + XLINE_SIZE..];
      rpos := 0;
      wpos := SizeOfBody(b, at);
      key := 0;
      val := None;
    }

    /** The cursor stands between `front` and `back`. */
    ghost predicate At(front: Entries, back: Entries)
      reads this
    {
      Cursor(mem, 0, wpos, front, back, rpos)
    }

    /** `key` points to the text of the key, which ends with a zero. */
    ghost predicate KeyAt(k: Key)
      reads this
    {
      key + |k| < |mem| && mem[key..key + |k|] == k && mem[key + |k|] == 0
    }

    /** xl_next: the entries come one by one, then NULL. */
    method Next(ghost front: Entries, ghost back: Entries) returns (line: Option<nat>)
      requires At(front, back)
      modifies `rpos, `key
      ensures line.None? <==> back.NoEntry?
      ensures back.NoEntry? ==> At(front, back) && rpos == old(rpos)
      ensures back.Entry? ==>
        && At(Join(front, Entry(back.key, back.value, NoEntry)), back.rest)
        && KeyAt(back.key)
        && Sees(mem, line.value, back.value)
    {
      hide Sees, SizeOfLine, Cursor, SeesEntries, SeesKey, Join, Holds;
      CursorAhead(mem, 0, wpos, front, back, rpos);
      if rpos < wpos {
        CursorSteps(mem, 0, wpos, front, back, rpos);
        KeyText(mem, rpos, back.key);
        key := rpos;
        rpos := rpos + mem[key] + 1;
        key := key + 1;
        var at := rpos;
        rpos := rpos + SizeOfLine(mem, at);
        return Some(at);
      }
      return None;
    }

    /** One round of the loops of xl_find. */
    method Probe(wanted: Key, ghost pre: Entries, ghost rest: Entries) returns (hit: bool)
      requires Cursor(mem, 0, wpos, pre, rest, rpos) && rest.Entry?
      modifies `rpos, `key, `val
      ensures hit <==> rest.key == wanted
      ensures hit ==> KeyAt(wanted)
      ensures old(rpos) < |mem| && ValueAt(mem, old(rpos)) + XLINE_SIZE <= |mem| && rpos == Step(mem, old(rpos))
      ensures val == Some(ValueAt(mem, old(rpos))) && Sees(mem, ValueAt(mem, old(rpos)), rest.value)
      ensures Cursor(mem, 0, wpos, Join(pre, Entry(rest.key, rest.value, NoEntry)), rest.rest, rpos)
    {
      hide Sees, SizeOfLine, Cursor, SeesEntries, SeesKey, Join, Holds;
      CursorSteps(mem, 0, wpos, pre, rest, rpos);
      KeyMatches(mem, rpos, rest.key, wanted);
      KeyText(mem, rpos, rest.key);
      key := rpos;
      rpos := rpos + mem[key] + 1;
      val := Some(rpos);
      rpos := rpos + SizeOfLine(mem, rpos);
      if |wanted| + 1 == mem[key] && wanted + [0] == mem[key + 1..key + 1 + mem[key]] {
        key := key + 1;
        return true;
      }
      return false;
    }

    /** xl_find: looks ahead of the cursor, then behind it. A hit leaves the cursor behind the
        entry, a miss leaves it where it was. */
    method Find(wanted: Key, ghost front: Entries, ghost back: Entries)
      returns (line: Option<nat>, ghost pre: Entries, ghost post: Entries, ghost start: nat)
      requires At(front, back)
      modifies `rpos, `key, `val
      ensures line == val && (line.Some? <==> LookupFrom(front, back, wanted).Some?)
      ensures line.Some? ==> var v := LookupFrom(front, back, wanted).value;
        && Sees(mem, line.value, v) && Join(pre, Entry(wanted, v, post)) == Join(front, back)
        && Cursor(mem, 0, wpos, pre, Entry(wanted, v, post), start) && start < |mem|
            && line.value == ValueAt(mem, start)
        && At(Join(pre, Entry(wanted, v, NoEntry)), post)
      ensures line.Some? ==> KeyAt(wanted)
      ensures line.None? ==> At(front, back) && rpos == old(rpos)
    {
      hide Sees, SizeOfLine, Cursor, SeesEntries, SeesKey, Join, Holds, KeyAt;
      var origin := rpos;
      pre, post, start := front, back, rpos;
      CursorAhead(mem, 0, wpos, pre, post, rpos);
      while rpos < wpos
        invariant Cursor(mem, 0, wpos, pre, post, rpos) && Join(pre, post) == Join(front, back)
        invariant Lookup(post, wanted) == Lookup(back, wanted) && (post.Entry? <==> rpos < wpos)
        decreases post
      {
        ghost var e := post;
        start := rpos;
        CursorSteps(mem, 0, wpos, pre, post, rpos);
        var hit := Probe(wanted, pre, post);
        if hit {
          post := e.rest;
          return val, pre, post, start;
        }
        pre, post := Join(pre, Entry(e.key, e.value, NoEntry)), e.rest;
        CursorAhead(mem, 0, wpos, pre, post, rpos);
      }
      rpos := 0;
      ghost var m := front;
      pre := NoEntry;
      CursorRestart(mem, wpos, front, back, origin);
      CursorAhead(mem, 0, wpos, m, back, origin);
      while rpos < origin
        invariant Cursor(mem, 0, wpos, pre, Join(m, back), rpos) && Cursor(mem, rpos, wpos, m, back, origin)
        invariant Join(pre, Join(m, back)) == Join(front, back) && (m.Entry? <==> rpos < origin) && rpos <= origin
        invariant Lookup(m, wanted) == Lookup(front, wanted)
        decreases m
      {
        ghost var e := m;
        start := rpos;
        JoinUnfold(m, back);
        CursorBetween(mem, wpos, m, back, rpos, origin);
        CursorSteps(mem, 0, wpos, pre, Join(m, back), rpos);
        var hit := Probe(wanted, pre, Join(m, back));
        if hit {
          post := Join(e.rest, back);
          return val, pre, post, start;
        }
        pre, m := Join(pre, Entry(e.key, e.value, NoEntry)), e.rest;
        CursorAhead(mem, rpos, wpos, m, back, origin);
      }
      val := None;
      return val, pre, post, start;
    }

    /** xl_list_next: the items come one by one, then NULL. */
    method ListNext(ghost rest: Items) returns (line: Option<nat>)
      requires SeesItems(mem, rpos, wpos, rest)
      modifies `rpos
      ensures line.None? <==> rest.NoItem?
      ensures rest.NoItem? ==> rpos == old(rpos)
      ensures rest.Item? ==> Sees(mem, line.value, rest.value) && SeesItems(mem, rpos, wpos, rest.rest)
    {
      if rpos < wpos {
        SeesInside(mem, rpos, rest.value);
        var at := rpos;
        rpos := rpos + SizeOfLine(mem, at);
        return Some(at);
      }
      return None;
    }

    /** xl_set_value: nine bytes are written over the line that was found. The object then holds
        the number in place of the value exactly when that line had no more than nine bytes. */
    method SetValue(wanted: Key, nb: nat, ghost front: Entries, ghost back: Entries)
      returns (line: Option<nat>, ghost pre: Entries, ghost post: Entries)
      requires At(front, back) && Encodes(mem, wpos, Join(front, back)) && nb < U64
      modifies `mem, `rpos, `key, `val
      ensures line.Some? <==> LookupFrom(front, back, wanted).Some?
      ensures line.None? ==> mem == old(mem) && rpos == old(rpos)
      ensures line.Some? ==> var v := LookupFrom(front, back, wanted).value;
        && Join(pre, Entry(wanted, v, post)) == Join(front, back)
        && (Encodes(mem, wpos, Join(pre, Entry(wanted, UInt(nb), post))) <==> |Enc(v)| == XLINE_SIZE)
    {
      hide Sees, SizeOfLine, SeesEntries, SeesKey, Join, Holds, Enc, EncEntries, Head, Encodes;
      ghost var start;
      line, pre, post, start := Find(wanted, front, back);
      if line.Some? {
        ghost var v := LookupFrom(front, back, wanted).value;
        PatchPlace(mem, wpos, pre, wanted, v, post, start);
        PatchIff(mem, wpos, pre, wanted, v, post, nb);
        mem := Patched(mem, line.value, Head(T_UINT, nb));
      }
    }
  }

  /** The memory holds the encoding of `es` and nothing is too large or too long. */
  ghost predicate Encodes(b: seq<Byte>, w: nat, es: Entries) {
    Holds(b, 0, EncEntries(es)) && w == |EncEntries(es)| < U64 && EntriesFit(es) && EntryKeysFit(es)
  }

  lemma {:induction false} EncJoin(a: Entries, b: Entries)
    ensures EncEntries(Join(a, b)) == EncEntries(a) + EncEntries(b)
    ensures EntriesFit(Join(a, b)) <==> EntriesFit(a) && EntriesFit(b)
    ensures EntryKeysFit(Join(a, b)) <==> EntryKeysFit(a) && EntryKeysFit(b)
    decreases a
  {
    hide Enc, EncKey, Fits, KeysFit;
    if a.Entry? {
      EncJoin(a.rest, b);
      assert EncKey(a.key) + Enc(a.value) + (EncEntries(a.rest) + EncEntries(b))
          == (EncKey(a.key) + Enc(a.value) + EncEntries(a.rest)) + EncEntries(b);
    }
  }

  /** In an encoding, the cursor stands where the encoding of what it passed ends. */
  lemma {:induction false} CursorOffset(b: seq<Byte>, r: nat, w: nat, pre: Entries, post: Entries, pos: nat)
    requires Cursor(b, r, w, pre, post, pos) && Holds(b, r, EncEntries(pre)) && EntriesFit(pre)
        && |EncEntries(pre)| < U64
    ensures pos == r + |EncEntries(pre)|
    decreases pre
  {
    hide Holds, Enc, Sees, EncKey, SeesKey, HeadNumber, Number, Fits, SeesEntries;
    if pre.Entry? {
      var k, v, rest := EncKey(pre.key), Enc(pre.value), EncEntries(pre.rest);
      HoldsParts(b, r, k + v, rest);
      HoldsParts(b, r, k, v);
      KeySeen(b, r, pre.key);
      EncodingSeen(b, r + |k|, pre.value);
      CursorOffset(b, r + |k| + |v|, w, pre.rest, post, pos);
    }
  }

  lemma PatchPlace(b: seq<Byte>, w: nat, pre: Entries, k: Key, v: Value, post: Entries, start: nat)
    requires Encodes(b, w, Join(pre, Entry(k, v, post))) && Cursor(b, 0, w, pre, Entry(k, v, post), start)
    ensures start < |b| && ValueAt(b, start) == |EncEntries(pre)| + |EncKey(k)|
    ensures |EncEntries(pre)| + |EncKey(k)| + XLINE_SIZE <= |b|
  {
    hide Holds, Enc, EncKey, Cursor;
    var e := Entry(k, v, post);
    EncJoin(pre, e);
    HoldsParts(b, 0, EncEntries(pre), EncEntries(e));
    CursorOffset(b, 0, w, pre, e, start);
    HoldsParts(b, start, EncKey(k) + Enc(v), EncEntries(post));
    HoldsParts(b, start, EncKey(k), Enc(v));
    KeySeen(b, start, k);
    HoldsInside(b, start + |EncKey(k)|, Enc(v));
  }

  lemma HoldsInside(b: seq<Byte>, at: nat, s: seq<Byte>)
    requires Holds(b, at, s)
    ensures at + |s| <= |b|
  {}

  lemma PatchIff(b: seq<Byte>, w: nat, pre: Entries, k: Key, v: Value, post: Entries, nb: nat)
    requires Encodes(b, w, Join(pre, Entry(k, v, post))) && nb < U64
    requires |EncEntries(pre)| + |EncKey(k)| + XLINE_SIZE <= |b|
    ensures Encodes(Patched(b, |EncEntries(pre)| + |EncKey(k)|, Head(T_UINT, nb)), w,
        Join(pre, Entry(k, UInt(nb), post)))
            <==> |Enc(v)| == XLINE_SIZE
  {
    hide Holds, Enc, EncKey, Head, Fits, KeysFit, Join, EncEntries, EntriesFit, EntryKeysFit, Patched;
    PatchLength(pre, k, v, post, nb);
    if |Enc(v)| == XLINE_SIZE { PatchEncodes(b, w, pre, k, v, post, nb); }
  }

  lemma PatchLength(pre: Entries, k: Key, v: Value, post: Entries, nb: nat)
    requires nb < U64
    ensures |EncEntries(Join(pre, Entry(k, UInt(nb), post)))| == |EncEntries(Join(pre,
        Entry(k, v, post)))| - |Enc(v)| + XLINE_SIZE
  {
    hide Enc, EncKey, Head, Fits, KeysFit, Join, EncEntries, EntriesFit, EntryKeysFit;
    EncJoin(pre, Entry(k, v, post));
    EncJoin(pre, Entry(k, UInt(nb), post));
    EntryParts(k, v, post);
    NumberParts(k, nb, post);
  }

  lemma PatchEncodes(b: seq<Byte>, w: nat, pre: Entries, k: Key, v: Value, post: Entries, nb: nat)
    requires Encodes(b, w, Join(pre, Entry(k, v, post))) && nb < U64 && |Enc(v)| == XLINE_SIZE
    requires |EncEntries(pre)| + |EncKey(k)| + XLINE_SIZE <= |b|
    ensures Encodes(Patched(b, |EncEntries(pre)| + |EncKey(k)|, Head(T_UINT, nb)), w,
        Join(pre, Entry(k, UInt(nb), post)))
  {
    hide Holds, Enc, EncKey, Head, Fits, KeysFit, Join, EncEntries, EntriesFit, EntryKeysFit, Patched;
    PatchLength(pre, k, v, post, nb);
    PatchFits(pre, k, v, post, nb);
    PatchBytes(b, pre, k, v, post, nb);
  }

  lemma PatchFits(pre: Entries, k: Key, v: Value, post: Entries, nb: nat)
    requires EntriesFit(Join(pre, Entry(k, v, post))) && EntryKeysFit(Join(pre, Entry(k, v, post))) && nb < U64
    ensures EntriesFit(Join(pre, Entry(k, UInt(nb), post))) && EntryKeysFit(Join(pre, Entry(k, UInt(nb), post)))
  {
    hide Enc, EncKey, Head, Fits, KeysFit, Join, EncEntries, EntriesFit, EntryKeysFit;
    EncJoin(pre, Entry(k, v, post));
    EncJoin(pre, Entry(k, UInt(nb), post));
    EntryParts(k, v, post);
    NumberParts(k, nb, post);
  }

  lemma PatchBytes(b: seq<Byte>, pre: Entries, k: Key, v: Value, post: Entries, nb: nat)
    requires Holds(b, 0, EncEntries(Join(pre, Entry(k, v, post)))) && nb < U64 && |Enc(v)| == XLINE_SIZE
    requires |EncEntries(pre)| + |EncKey(k)| + XLINE_SIZE <= |b|
    ensures Holds(Patched(b, |EncEntries(pre)| + |EncKey(k)|, Head(T_UINT, nb)), 0,
                  EncEntries(Join(pre, Entry(k, UInt(nb), post))))
  {
    hide Holds, Enc, EncKey, Head, Fits, KeysFit, Join, EncEntries, EntriesFit, EntryKeysFit, Patched;
    EncJoin(pre, Entry(k, v, post));
    EncJoin(pre, Entry(k, UInt(nb), post));
    EntryParts(k, v, post);
    NumberParts(k, nb, post);
    PatchHolds(b, EncEntries(pre), EncKey(k), Enc(v), EncEntries(post), Head(T_UINT, nb));
  }

  lemma EntryParts(k: Key, v: Value, post: Entries)
    ensures EncEntries(Entry(k, v, post)) == EncKey(k) + Enc(v) + EncEntries(post)
    ensures EntriesFit(Entry(k, v, post)) <==> Fits(v) && EntriesFit(post)
    ensures EntryKeysFit(Entry(k, v, post)) <==> |k| <= MAX_KEY && KeysFit(v) && EntryKeysFit(post)
  {}

  lemma NumberParts(k: Key, nb: nat, post: Entries)
    requires nb < U64
    ensures EncEntries(Entry(k, UInt(nb), post)) == EncKey(k) + Head(T_UINT, nb) + EncEntries(post)
    ensures EntriesFit(Entry(k, UInt(nb), post)) <==> EntriesFit(post)
    ensures EntryKeysFit(Entry(k, UInt(nb), post)) <==> |k| <= MAX_KEY && EntryKeysFit(post)
  {
    EntryParts(k, UInt(nb), post);
  }

  lemma PatchHolds(b: seq<Byte>, p: seq<Byte>, k: seq<Byte>, v: seq<Byte>, q: seq<Byte>, head: seq<Byte>)
    requires Holds(b, 0, p + (k + v + q)) && |v| == |head|
    ensures |p| + |k| + |head| <= |b| && Holds(Patched(b, |p| + |k|, head), 0, p + (k + head + q))
  {
    var rest := b[|p| + |k| + |v| + |q|..];
    var c := p + (k + v + q);
    assert b[0..|c|] == c;
    assert b == c + rest;
    assert b[..|p| + |k|] == p + k;
    assert b[|p| + |k| + |head|..] == q + rest;
    assert Patched(b, |p| + |k|, head) == (p + (k + head + q)) + rest;
  }

  lemma JoinUnfold(m: Entries, back: Entries)
    requires m.Entry?
    ensures Join(m, back) == Entry(m.key, m.value, Join(m.rest, back))
  {}

  lemma CursorRestart(b: seq<Byte>, w: nat, front: Entries, back: Entries, pos: nat)
    requires Cursor(b, 0, w, front, back, pos)
    ensures Cursor(b, 0, w, NoEntry, Join(front, back), 0) && Join(NoEntry, Join(front, back)) == Join(front, back)
  {
    CursorAhead(b, 0, w, front, back, pos);
  }

  lemma KeyText(b: seq<Byte>, r: nat, k: Key)
    requires SeesKey(b, r, k)
    ensures r + 1 + |k| < |b| && b[r + 1..r + 1 + |k|] == k && b[r + 1 + |k|] == 0
  {
    assert b[r + 1..r + 1 + |k + [0]|] == k + [0];
    assert b[r + 1..r + 1 + |k + [0]|][|k|] == 0;
    assert b[r + 1..r + 1 + |k|] == (k + [0])[..|k|];
  }
}
