/** The builder of src/xnet/xline.h: a growing buffer behind a nine byte header. */
module XlineFrame {
  import opened Common
  import opened XlineFormat

  /** The bytes of an optional key. */
  function KeyBytes(key: Option<Key>): seq<Byte> {
    match key
    case None => []
    case Some(k) => EncKey(k)
  }

  predicate Scalar(v: Value) { !v.Obj? && !v.List? }

  /** struct xframe, the fields a builder uses. `size` is what the frame believes to own. */
  class Frame {
    var buf: array<Byte>
    var size: nat
    var wpos: nat
    var line: seq<Byte>

    ghost predicate Valid()
      reads this
    {
      size == buf.Length && wpos <= size
    }

    ghost function Data(): seq<Byte>
      reads this, buf
      requires wpos <= buf.Length
    {
      buf[..wpos]
    }

    /** xl_creator; the header is whatever the memory held. */
    constructor (size: nat, garbage: seq<Byte>)
      ensures Valid() && fresh(buf) && wpos == 0 && Data() == [] && line == garbage
    {
      buf := new Byte[size];
      this.size := size;
      wpos := 0;
      line := garbage;
    }

    /** The space test and __xl_realloc. The new size is stored before memory is asked for: when
        it is refused the frame keeps the old buffer and the new size, and is no longer valid. */
    method Reserve(need: nat, granted: bool) returns (ok: bool)
      requires Valid()
      modifies `buf, `size
      ensures ok <==> granted || old(size) - wpos >= need
      ensures ok <==> Valid() && wpos + need <= size
      ensures ok ==> (buf == old(buf) || fresh(buf)) && buf[..wpos] == old(buf[..wpos])
      ensures !ok ==> buf == old(buf) && size == 2 * old(size) + need && size > buf.Length
    {
      if size - wpos < need {
        size := size * 2 + need;
        if !granted { return false; }
        var bigger := new Byte[size];
        forall i | 0 <= i < wpos { bigger[i] := buf[i]; }
        buf := bigger;
      }
      return true;
    }

    /** mcopy to the end of the buffer */
    method Put(s: seq<Byte>)
      requires Valid() && wpos + |s| <= size
      modifies `wpos, buf
      ensures Valid() && Data() == old(Data()) + s
    {
      forall i | 0 <= i < |s| { buf[wpos + i] := s[i]; }
      wpos := wpos + |s|;
    }

    /** wpos += n, with nothing written */
    method Skip(n: nat) returns (ghost body: seq<Byte>)
      requires Valid() && wpos + n <= size
      modifies `wpos
      ensures Valid() && |body| == n && Data() == old(Data()) + body
    {
      body := buf[wpos..wpos + n];
      wpos := wpos + n;
    }

    /** __xl_fill_key */
    method FillKey(key: Key)
      requires Valid() && wpos + |key| + 2 <= size
      modifies `wpos, buf
      ensures Valid() && Data() == old(Data()) + EncKey(key)
    {
      var klen := |key|;
      if klen > 64 { klen := 64; }
      ghost var before := Data();
      buf[wpos] := klen + 1;
      forall i | 0 <= i < klen { buf[wpos + 1 + i] := key[i]; }
      buf[wpos + buf[wpos]] := 0;
      wpos := wpos + buf[wpos] + 1;
      assert CutKey(key) == key[..klen];
      assert Data() == before + ([klen + 1] + key[..klen] + [0]);
    }

    /** xl_add_int, xl_add_uint, xl_add_float, xl_add_ptr, xl_add_word, xl_add_str and
        xl_add_bin: a key, a header, and for the last three a body. */
    method AddScalar(key: Key, v: Value, granted: bool) returns (ok: bool)
      requires Valid() && Scalar(v)
      modifies this, buf
      ensures ok <==> granted || old(size - wpos) >= |key| + 2 + |Enc(v)|
      ensures ok ==> Valid() && (buf == old(buf) || fresh(buf)) && Data() == old(Data()) + (EncKey(key) + Enc(v))
      ensures ok ==> line == Head(T_OBJ, wpos)
      ensures !ok ==> !Valid() && buf == old(buf) && buf[..] == old(buf[..]) && wpos == old(wpos) && line == old(line)
    {
      hide Enc, EncKey, Head;
      var bytes := Enc(v);
      ok := Reserve(|key| + 2 + |bytes|, granted);
      if !ok { return; }
      ghost var before := Data();
      FillKey(key);
      Put(bytes);
      assert Data() == before + (EncKey(key) + bytes);
      line := Head(T_OBJ, wpos);
    }

    /** xl_add_bin without a source: room for `n` bytes, which hold whatever the memory held. */
    method AddBlank(key: Key, n: nat, granted: bool) returns (ok: bool, ghost body: seq<Byte>)
      requires Valid()
      modifies this, buf
      ensures ok <==> granted || old(size - wpos) >= |key| + 2 + XLINE_SIZE + n
      ensures ok ==> |body| == n && Valid() && (buf == old(buf) || fresh(buf))
      ensures ok ==> Data() == old(Data()) + (EncKey(key) + Enc(Bin(body)))
      ensures ok ==> line == Head(T_OBJ, wpos)
      ensures !ok ==> !Valid() && buf == old(buf) && buf[..] == old(buf[..]) && wpos == old(wpos) && line == old(line)
    {
      hide EncKey, Head, Enc;
      body := [];
      ok := Reserve(|key| + 2 + XLINE_SIZE + n, granted);
      if !ok { return; }
      ghost var before := Data();
      FillKey(key);
      Put(Head(T_BIN, n));
      body := Skip(n);
      BlankParts(before, EncKey(key), body);
      line := Head(T_OBJ, wpos);
    }

    /** xl_add_obj: a line copied from elsewhere. */
    method AddObj(key: Key, xd: seq<Byte>, granted: bool) returns (ok: bool)
      requires Valid() && XLINE_SIZE <= |xd| && SizeOfLine(xd, 0) <= |xd|
      modifies this, buf
      ensures ok <==> granted || old(size - wpos) >= |key| + 2 + XLINE_SIZE + SizeOfLine(xd, 0)
      ensures ok ==> Valid() && (buf == old(buf) || fresh(buf))
      ensures ok ==> Data() == old(Data()) + (EncKey(key) + xd[..SizeOfLine(xd, 0)])
      ensures ok ==> line == Head(T_OBJ, wpos)
      ensures !ok ==> !Valid() && buf == old(buf) && buf[..] == old(buf[..]) && wpos == old(wpos) && line == old(line)
    {
      hide EncKey, Head, SizeOfLine;
      var n := SizeOfLine(xd, 0);
      ok := Reserve(|key| + 2 + XLINE_SIZE + n, granted);
      if !ok { return; }
      ghost var before := Data();
      FillKey(key);
      Put(xd[..n]);
      assert Data() == before + (EncKey(key) + xd[..n]);
      line := Head(T_OBJ, wpos);
    }

    /** xl_list_append, and xl_list_add, which also writes a list header. */
    method ListAppend(xl: seq<Byte>, mark: bool, granted: bool) returns (ok: bool)
      requires Valid() && XLINE_SIZE <= |xl| && SizeOfLine(xl, 0) <= |xl|
      modifies this, buf
      ensures ok <==> granted || old(size - wpos) >= SizeOfLine(xl, 0)
      ensures ok ==> Valid() && (buf == old(buf) || fresh(buf)) && Data() == old(Data()) + xl[..SizeOfLine(xl, 0)]
      ensures ok ==> line == if mark then Head(T_LIST, wpos) else old(line)
      ensures !ok ==> !Valid() && buf == old(buf) && buf[..] == old(buf[..]) && wpos == old(wpos) && line == old(line)
    {
      hide Head, SizeOfLine;
      var n := SizeOfLine(xl, 0);
      ok := Reserve(n, granted);
      if !ok { return; }
      Put(xl[..n]);
      if mark { line := Head(T_LIST, wpos); }
    }

    /** xl_obj_begin and xl_list_begin: leaves room for a header. */
    method Begin(key: Option<Key>, granted: bool) returns (pos: Option<nat>)
      requires Valid()
      modifies `buf, `size, `wpos, buf
      ensures pos.Some? ==> Valid() && (buf == old(buf) || fresh(buf))
      ensures pos.Some? ==> pos.value == old(wpos) + |KeyBytes(key)| && wpos == pos.value + XLINE_SIZE
      ensures pos.Some? ==> Data()[..pos.value] == old(Data()) + KeyBytes(key)
      ensures pos.None? <==> !granted && old(size - wpos) < XLINE_SIZE + if key.None? then 0 else |key.value| + 2
      ensures pos.None? ==> !Valid() && buf == old(buf) && buf[..] == old(buf[..]) && wpos == old(wpos)
    {
      hide EncKey;
      var need := if key.Some? then |key.value| + 2 + XLINE_SIZE else XLINE_SIZE;
      var ok := Reserve(need, granted);
      if !ok { return None; }
      if key.Some? { FillKey(key.value); }
      wpos := wpos + XLINE_SIZE;
      return Some(wpos - XLINE_SIZE);
    }

    /** xl_obj_end and xl_list_end: the header is written into the room left for it. Only a list
        refreshes the header of the frame. */
    method End(pos: Option<nat>, t: Byte)
      requires Valid() && (t == T_OBJ || t == T_LIST) && (pos.Some? ==> pos.value + XLINE_SIZE <= wpos)
      modifies `line, buf
      ensures Valid()
      ensures pos.Some? ==> Data() == Patched(old(Data()), pos.value, Head(t, wpos - pos.value - XLINE_SIZE))
      ensures pos.None? ==> buf[..] == old(buf[..])
      ensures line == if pos.Some? && t == T_LIST then Head(T_OBJ, wpos) else old(line)
    {
      if pos.Some? {
        var head := Head(t, wpos - pos.value - XLINE_SIZE);
        hide Head;
        forall i | 0 <= i < XLINE_SIZE { buf[pos.value + i] := head[i]; }
        assert Data() == Patched(old(Data()), pos.value, head);
        if t == T_LIST { line := Head(T_OBJ, wpos); }
      }
    }
  }

  lemma BlankParts(before: seq<Byte>, key: seq<Byte>, body: seq<Byte>)
    ensures before + key + Head(T_BIN, |body|) + body == before + (key + Enc(Bin(body)))
  {
    hide Head;
  }

  // ---------------------------------------------------------------- nested in place

  /** What begin, some content and end leave behind is the key, the header and the content. */
  lemma EndAfterBegin(before: seq<Byte>, key: seq<Byte>, c: seq<Byte>, inner: seq<Byte>, head: seq<Byte>)
    requires |before| + |key| + |head| == |c| && c[..|before| + |key|] == before + key
    ensures Patched(c + inner, |before| + |key|, head) == before + (key + (head + inner))
  {
    var pos := |before| + |key|;
    assert (c + inner)[..pos] == c[..pos];
    assert (c + inner)[pos + |head|..] == inner;
  }

  /** The header of the whole frame after `es` were added at `base`: every addition refreshes it
      but the end of an object. */
  function HeaderAfter(es: Entries, base: nat, line: seq<Byte>): seq<Byte>
    decreases es
  {
    match es
    case NoEntry => line
    case Entry(k, v, rest) =>
      var end := base + |EncKey(k)| + |Enc(v)|;
      HeaderAfter(rest, end, if v.Obj? then HeaderAfter(v.entries, base + |EncKey(k)| + XLINE_SIZE,
          line) else Head(T_OBJ, end))
  }

  /** Something was added, and the last thing, however deep, is not an empty object. */
  predicate EndsMarked(es: Entries) {
    match es
    case NoEntry => false
    case Entry(_, v, rest) => if rest.Entry? then EndsMarked(rest) else v.Obj? ==> EndsMarked(v.entries)
  }

  lemma HeadInjective(t: Byte, m: nat, n: nat)
    requires m < U64 && n < U64 && Head(t, m) == Head(t, n)
    ensures m == n
  {
    HeadParts(t, m);
    HeadParts(t, n);
  }

  /** From a stale header, the frame ends up with the right one exactly when the last thing added
      is not an empty object. */
  lemma {:induction false} HeaderIff(es: Entries, base: nat, line: seq<Byte>, f: nat)
    requires base + |EncEntries(es)| <= f < U64 && line != Head(T_OBJ, f)
    ensures HeaderAfter(es, base, line) == Head(T_OBJ, f) <==> f == base + |EncEntries(es)| && EndsMarked(es)
    decreases es
  {
    hide Head, EncKey, Enc;
    if es.Entry? {
      var v, rest := es.value, es.rest;
      var start, end := base + |EncKey(es.key)|, base + |EncKey(es.key)| + |Enc(v)|;
      assert EncEntries(es) == EncKey(es.key) + Enc(v) + EncEntries(rest);
      var line' := if v.Obj? then HeaderAfter(v.entries, start + XLINE_SIZE, line) else Head(T_OBJ, end);
      if v.Obj? {
        ObjSize(v.entries);
        HeaderIff(v.entries, start + XLINE_SIZE, line, f);
      } else if line' == Head(T_OBJ, f) {
        HeadInjective(T_OBJ, end, f);
      }
      assert line' == Head(T_OBJ, f) <==> f == end && (v.Obj? ==> EndsMarked(v.entries));
      if rest.Entry? {
        RestSize(rest);
        HeaderIff(rest, end, line', f);
      }
    }
  }

  /** Whatever the header was before. */
  lemma {:induction false} MarkedHeader(es: Entries, base: nat, line: seq<Byte>)
    requires EndsMarked(es)
    ensures HeaderAfter(es, base, line) == Head(T_OBJ, base + |EncEntries(es)|)
    decreases es
  {
    hide Head, EncKey, Enc;
    var v, rest := es.value, es.rest;
    var start, end := base + |EncKey(es.key)|, base + |EncKey(es.key)| + |Enc(v)|;
    assert EncEntries(es) == EncKey(es.key) + Enc(v) + EncEntries(rest);
    if rest.Entry? {
      MarkedHeader(rest, end, if v.Obj? then HeaderAfter(v.entries, start + XLINE_SIZE, line) else Head(T_OBJ, end));
    } else if v.Obj? {
      ObjSize(v.entries);
      MarkedHeader(v.entries, start + XLINE_SIZE, line);
    }
  }

  lemma ObjSize(es: Entries)
    ensures |Enc(Obj(es))| == XLINE_SIZE + |EncEntries(es)|
    ensures Enc(Obj(es)) == Head(T_OBJ, |EncEntries(es)|) + EncEntries(es)
  {}

  lemma ListSize(vs: Items)
    ensures |Enc(List(vs))| == XLINE_SIZE + |EncItems(vs)|
    ensures Enc(List(vs)) == Head(T_LIST, |EncItems(vs)|) + EncItems(vs)
  {}

  lemma RestSize(es: Entries)
    requires es.Entry?
    ensures |EncEntries(es)| > 0
  {}

  // ---------------------------------------------------------------- whole trees

  lemma EntryBytes(before: seq<Byte>, k: Key, v: Value, rest: Entries)
    ensures before + (EncKey(k) + Enc(v)) + EncEntries(rest) == before + EncEntries(Entry(k, v, rest))
  {
    hide EncKey, Enc;
    assert EncEntries(Entry(k, v, rest)) == EncKey(k) + Enc(v) + EncEntries(rest);
  }

  lemma ItemBytes(before: seq<Byte>, v: Value, rest: Items)
    ensures before + Enc(v) + EncItems(rest) == before + EncItems(Item(v, rest))
  {
    hide Enc;
    assert EncItems(Item(v, rest)) == Enc(v) + EncItems(rest);
  }

  lemma ScalarLine(v: Value)
    requires Scalar(v) && |Enc(v)| < U64
    ensures SizeOfLine(Enc(v), 0) == |Enc(v)|
  {
    if v.Str? { HoldsParts(Enc(v), 0, Head(T_STR, |v.s|), v.s); HeadReads(Enc(v), 0, T_STR, |v.s|); }
    if v.Bin? { HoldsParts(Enc(v), 0, Head(T_BIN, |v.s|), v.s); HeadReads(Enc(v), 0, T_BIN, |v.s|); }
  }

  /** Adding a tree entry by entry, objects and lists in place: whatever the buffer size and the
      reallocations on the way, the bytes are the encoding. */
  method BuildEntries(f: Frame, es: Entries)
    requires f.Valid() && |EncEntries(es)| < U64
    modifies f, f.buf
    ensures f.Valid() && (f.buf == old(f.buf) || fresh(f.buf))
    ensures f.Data() == old(f.Data()) + EncEntries(es)
    ensures f.line == HeaderAfter(es, old(f.wpos), old(f.line))
    decreases es, 0
  {
    hide Head, EncKey, Enc, EncItems;
    match es
    case NoEntry =>
    case Entry(k, v, rest) =>
      ghost var before := f.Data();
      assert EncEntries(es) == EncKey(k) + Enc(v) + EncEntries(rest);
      EntryBytes(before, k, v, rest);
      if v.Obj? {
        ObjSize(v.entries);
        BuildObj(f, Some(k), v.entries);
      } else if v.List? {
        ListSize(v.items);
        BuildList(f, Some(k), v.items);
      } else {
        var _ := f.AddScalar(k, v, true);
      }
      assert f.Data() == before + (EncKey(k) + Enc(v));
      assert f.wpos == |before| + |EncKey(k)| + |Enc(v)|;
      BuildEntries(f, rest);
  }

  /** The end call of a nested object or list. */
  method EndNested(f: Frame, pos: Option<nat>, t: Byte, ghost before: seq<Byte>, ghost key: seq<Byte>,
      ghost c: seq<Byte>, ghost inner: seq<Byte>)
    requires f.Valid() && (t == T_OBJ || t == T_LIST) && f.Data() == c + inner
    requires pos == Some(|before| + |key|) && |c| == |before| + |key| + XLINE_SIZE
        && c[..|before| + |key|] == before + key
    modifies f`line, f.buf
    ensures f.Valid() && f.Data() == before + (key + (Head(t, |inner|) + inner))
    ensures f.line == if t == T_LIST then Head(T_OBJ, f.wpos) else old(f.line)
  {
    hide Head, Patched;
    assert |f.Data()| == |c| + |inner|;
    EndAfterBegin(before, key, c, inner, Head(t, |inner|));
    f.End(pos, t);
  }

  method BuildObj(f: Frame, key: Option<Key>, es: Entries)
    requires f.Valid() && |EncEntries(es)| < U64
    modifies f, f.buf
    ensures f.Valid() && (f.buf == old(f.buf) || fresh(f.buf))
    ensures f.Data() == old(f.Data()) + (KeyBytes(key) + Enc(Obj(es)))
    ensures f.line == HeaderAfter(es, old(f.wpos) + |KeyBytes(key)| + XLINE_SIZE, old(f.line))
    decreases es, 1
  {
    hide Head, KeyBytes, EncEntries, HeaderAfter, Enc;
    ObjSize(es);
    ghost var before := f.Data();
    var pos := f.Begin(key, true);
    ghost var c := f.Data();
    BuildEntries(f, es);
    EndNested(f, pos, T_OBJ, before, KeyBytes(key), c, EncEntries(es));
  }

  method BuildList(f: Frame, key: Option<Key>, vs: Items)
    requires f.Valid() && |EncItems(vs)| < U64
    modifies f, f.buf
    ensures f.Valid() && (f.buf == old(f.buf) || fresh(f.buf))
    ensures f.Data() == old(f.Data()) + (KeyBytes(key) + Enc(List(vs)))
    ensures f.line == Head(T_OBJ, f.wpos)
    decreases vs, 1
  {
    hide Head, KeyBytes, EncItems, Enc;
    ListSize(vs);
    ghost var before := f.Data();
    var pos := f.Begin(key, true);
    ghost var c := f.Data();
    BuildItems(f, vs);
    EndNested(f, pos, T_LIST, before, KeyBytes(key), c, EncItems(vs));
  }

  method BuildItems(f: Frame, vs: Items)
    requires f.Valid() && |EncItems(vs)| < U64
    modifies f, f.buf
    ensures f.Valid() && (f.buf == old(f.buf) || fresh(f.buf))
    ensures f.Data() == old(f.Data()) + EncItems(vs)
    decreases vs, 0
  {
    hide Head, Enc, HeaderAfter, EncEntries;
    match vs
    case NoItem =>
    case Item(v, rest) =>
      ghost var before := f.Data();
      assert EncItems(vs) == Enc(v) + EncItems(rest);
      ItemBytes(before, v, rest);
      assert KeyBytes(None) + Enc(v) == Enc(v);
      if v.Obj? {
        ObjSize(v.entries);
        BuildObj(f, None, v.entries);
      } else if v.List? {
        ListSize(v.items);
        BuildList(f, None, v.items);
      } else {
        ScalarLine(v);
        assert Enc(v)[..|Enc(v)|] == Enc(v);
        var _ := f.ListAppend(Enc(v), false, true);
      }
      assert f.Data() == before + Enc(v);
      BuildItems(f, rest);
  }

  lemma {:induction false} HeaderSize(es: Entries, base: nat, line: seq<Byte>)
    requires |line| == XLINE_SIZE
    ensures |HeaderAfter(es, base, line)| == XLINE_SIZE
    decreases es
  {
    hide Head, EncKey, Enc;
    if es.Entry? {
      var v := es.value;
      var start, end := base + |EncKey(es.key)|, base + |EncKey(es.key)| + |Enc(v)|;
      if v.Obj? { HeaderSize(v.entries, start + XLINE_SIZE, line); }
      HeaderSize(es.rest, end, if v.Obj? then HeaderAfter(v.entries, start + XLINE_SIZE, line) else Head(T_OBJ, end));
    }
  }

  /** The line of a frame in which `es` were built over a header that held garbage. */
  function FrameLine(es: Entries, garbage: seq<Byte>): seq<Byte> {
    HeaderAfter(es, 0, garbage) + EncEntries(es)
  }

  /** As much of it as its header says is the encoded object exactly when the last thing added is
      not an empty object. */
  lemma FrameLineIff(es: Entries, garbage: seq<Byte>)
    requires |EncEntries(es)| < U64 && |garbage| == XLINE_SIZE && garbage != Head(T_OBJ, |EncEntries(es)|)
    ensures XLINE_SIZE <= |FrameLine(es, garbage)|
    ensures SizeOfLine(FrameLine(es, garbage), 0) <= |FrameLine(es, garbage)| ==>
      (FrameLine(es, garbage)[..SizeOfLine(FrameLine(es, garbage), 0)] == Enc(Obj(es)) <==> EndsMarked(es))
  {
    HeaderSize(es, 0, garbage);
    HeaderIff(es, 0, garbage, |EncEntries(es)|);
    ObjSize(es);
    ObjLine(es);
    hide HeaderAfter, EncEntries, Enc, SizeOfLine, Head, EndsMarked;
    var xd, h := FrameLine(es, garbage), HeaderAfter(es, 0, garbage);
    assert xd[..XLINE_SIZE] == h;
    var n := SizeOfLine(xd, 0);
    LineSize(xd);
    if n <= |xd| && xd[..n] == Enc(Obj(es)) {
      assert xd[..n][..XLINE_SIZE] == h;
      assert Enc(Obj(es))[..XLINE_SIZE] == Head(T_OBJ, |EncEntries(es)|);
    }
  }

  lemma LineSize(xd: seq<Byte>)
    requires XLINE_SIZE <= |xd|
    ensures SizeOfLine(xd, 0) >= XLINE_SIZE
  {
  }

  /** An object built in a frame of its own and added is the object built in place exactly when
      its frame was not left with a stale header. */
  method BuildSeparately(f: Frame, key: Key, es: Entries, garbage: seq<Byte>)
    requires f.Valid() && |EncEntries(es)| < U64 && |garbage| == XLINE_SIZE
        && garbage != Head(T_OBJ, |EncEntries(es)|)
    requires XLINE_SIZE <= |FrameLine(es, garbage)|
    requires SizeOfLine(FrameLine(es, garbage), 0) <= |FrameLine(es, garbage)|
    modifies f, f.buf
    ensures f.Valid() && (f.Data() == old(f.Data()) + (EncKey(key) + Enc(Obj(es))) <==> EndsMarked(es))
  {
    hide HeaderAfter, EncEntries, EncKey, Enc, SizeOfLine, EndsMarked, Head;
    var g := new Frame(0, garbage);
    BuildEntries(g, es);
    var xd := g.line + g.buf[..g.wpos];
    assert g.Data() == EncEntries(es);
    assert xd == FrameLine(es, garbage);
    FrameLineIff(es, garbage);
    ghost var before := f.Data();
    var _ := f.AddObj(key, xd, true);
    SameTail(before, EncKey(key), xd[..SizeOfLine(xd, 0)], Enc(Obj(es)));
  }

  lemma SameTail(a: seq<Byte>, k: seq<Byte>, x: seq<Byte>, y: seq<Byte>)
    ensures a + (k + x) == a + (k + y) <==> x == y
  {
    if a + (k + x) == a + (k + y) {
      assert (a + (k + x))[|a| + |k|..] == x;
      assert (a + (k + y))[|a| + |k|..] == y;
    }
  }

  /** An object's line is as long as its header says. */
  lemma ObjLine(es: Entries)
    requires |EncEntries(es)| < U64
    ensures SizeOfLine(Enc(Obj(es)), 0) == |Enc(Obj(es))| && Enc(Obj(es))[..|Enc(Obj(es))|] == Enc(Obj(es))
  {
    ObjSize(es);
    hide Head, EncEntries, HeadNumber, Enc;
    var n := |EncEntries(es)|;
    HoldsParts(Enc(Obj(es)), 0, Head(T_OBJ, n), EncEntries(es));
    HeadReads(Enc(Obj(es)), 0, T_OBJ, n);
  }
}
