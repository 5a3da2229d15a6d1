/** The sending half of an XLTP channel: message ring, packet ring, acknowledgements.

    Ring positions and serials are the unbounded numbers behind the 16-bit fields; every branch
    is taken on what the 16-bit fields show (Gap, U16, Slot).  `out` holds every packet ever
    serialised, of which the ring keeps the serials rpos <= n < |out|; `frames` holds every
    message ever queued, of which the message ring keeps mrpos <= i < |frames|. */
module Sender {
  import opened Common
  import opened Serial
  import opened Segmentation

  /** XMSG_BUF_RANGE */
  const MSG_RANGE := 8

  /** The sn and pos fields of an acknowledgement. */
  datatype Ack = Ack(sn: nat, pos: nat)

  /** xframe: bytes serialised, packets left to serialise, bytes acknowledged. */
  datatype Frame = Frame(msg: Message, spos: nat, range: int, rpos: nat)

  /** xpack in the send ring.  `waiting` is ts != 0: not known to have arrived. */
  datatype OutPack = OutPack(pack: Packet, msg: nat, ack: Option<Ack>, waiting: bool)

  datatype Tx = Tx(
    frames: seq<Frame>, mspos: nat, mrpos: nat,
    out: seq<OutPack>, spos: nat, rpos: nat,
    wbytes: nat, rbytes: nat,
    reported: seq<nat>)

  const Fresh: Tx := Tx([], 0, 0, [], 0, 0, 0, 0, [])

  // ---------------------------------------------------------------- invariant

  function Msgs(fs: seq<Frame>): (ms: seq<Message>)
    ensures |ms| == |fs|
    ensures forall i :: 0 <= i < |fs| ==> ms[i] == fs[i].msg
  {
    seq(|fs|, i requires 0 <= i < |fs| => fs[i].msg)
  }

  /** How many packets of message `i` are among the first `n` packets of the stream. */
  function Done(ms: seq<Message>, i: nat, n: nat): (k: nat)
    requires i < |ms|
    ensures k <= Count(ms[i])
  {
    if n <= Base(ms, i) then 0
    else if n - Base(ms, i) >= Count(ms[i]) then Count(ms[i])
    else n - Base(ms, i)
  }

  /** What frame `i` looks like with `w` packets serialised and `r` acknowledged. */
  function FrameAt(ms: seq<Message>, i: nat, w: nat, r: nat): Frame
    requires i < |ms|
  {
    Frame(ms[i], Consumed(ms[i], Done(ms, i, w)), Count(ms[i]) - Done(ms, i, w),
          Consumed(ms[i], Done(ms, i, r)))
  }

  /** Message `i` is the one that stream position `n` falls into. */
  ghost predicate Within(ms: seq<Message>, i: nat, n: nat) {
    i <= |ms| && Base(ms, i) <= n && if i < |ms| then n < Base(ms, i + 1) else n == Base(ms, i)
  }

  /** Bytes of the messages from `lo` on that are not acknowledged. */
  function Unacked(fs: seq<Frame>, lo: nat): int
    decreases |fs| - lo
  {
    if lo >= |fs| then 0 else |fs[lo].msg.body| - fs[lo].rpos + Unacked(fs, lo + 1)
  }

  predicate Windows(t: Tx) {
    && t.rpos <= t.spos <= |t.out| <= t.rpos + RANGE
    && t.mrpos <= t.mspos <= |t.frames| <= t.mrpos + MSG_RANGE
  }

  ghost predicate FramesAt(ms: seq<Message>, fs: seq<Frame>, w: nat, r: nat) {
    |fs| == |ms| && forall i :: 0 <= i < |fs| ==> fs[i] == FrameAt(ms, i, w, r)
  }

  ghost predicate FramesOk(t: Tx) {
    FramesAt(Msgs(t.frames), t.frames, |t.out|, t.rpos)
  }

  ghost predicate PacksOk(t: Tx) {
    var ms := Msgs(t.frames);
    && |t.out| <= |CutAll(ms)|
    && (forall n :: 0 <= n < |t.out| ==> t.out[n].pack == CutAll(ms)[n])
    && (forall n :: 0 <= n < |t.out| ==> t.out[n].msg < |ms| && Within(ms, t.out[n].msg, n))
    && (forall n :: 0 <= n < |t.out| && n < t.rpos ==> !t.out[n].waiting)
  }

  ghost predicate CountsOk(t: Tx) {
    && |t.reported| == t.mrpos
    && (forall i :: 0 <= i < t.mrpos ==> t.reported[i] == i)
    && t.wbytes - t.rbytes == Unacked(t.frames, t.mrpos)
  }

  /** Everything the sender relies on; nothing here depends on what the peer does. */
  ghost predicate TxInv(t: Tx) {
    && Windows(t)
    && Within(Msgs(t.frames), t.mspos, |t.out|)
    && Within(Msgs(t.frames), t.mrpos, t.rpos)
    && FramesOk(t)
    && PacksOk(t)
    && CountsOk(t)
  }

  // ---------------------------------------------------------------- operations

  predicate HasRoom(t: Tx) { Gap(MSG_RANGE + t.mrpos, |t.frames|) > 0 }

  /** xmsger_send: queue a message, or refuse it when the message ring is full. */
  function Queue(t: Tx, m: Message): Tx {
    if HasRoom(t) then
      t.(frames := t.frames + [Frame(m, 0, Count(m), 0)], wbytes := t.wbytes + |m.body|)
    else t
  }

  /** xchannel_serial_msg: cut the next packet of the current message into the send ring. */
  function Serialise(t: Tx): Tx
    requires Windows(t)
    requires forall i :: 0 <= i < |t.frames| ==> t.frames[i].spos <= |t.frames[i].msg.body|
  {
    if Gap(RANGE + t.rpos, |t.out|) > 0 && Gap(|t.frames|, t.mspos) > 0 then
      var f := t.frames[t.mspos];
      var size := |f.msg.body|;
      var len := if size > 0 then (if size - f.spos < BODY then size - f.spos else BODY) else 0;
      var p := Packet(f.msg.kind, f.range % RANGE_WRAP, f.msg.body[f.spos..f.spos + len]);
      t.(frames := t.frames[t.mspos := f.(spos := f.spos + len, range := f.range - 1)],
         out := t.out + [OutPack(p, t.mspos, None, true)],
         mspos := if f.spos + len == size then t.mspos + 1 else t.mspos)
    else t
  }

  /** One turn of the cumulative loop of xchannel_recv_ack: release the oldest packet, credit
      its bytes, and report its message when that was the last of it. */
  function AckOne(t: Tx): Tx
    requires t.rpos < |t.out| && t.out[t.rpos].msg < |t.frames|
  {
    var o := t.out[t.rpos];
    var f := t.frames[o.msg];
    var got := f.rpos + |o.pack.body|;
    var t1 := t.(out := t.out[t.rpos := o.(waiting := false)], rpos := t.rpos + 1,
                 rbytes := t.rbytes + |o.pack.body|, frames := t.frames[o.msg := f.(rpos := got)]);
    if got == |f.msg.body| then t1.(reported := t1.reported + [o.msg], mrpos := t1.mrpos + 1)
    else t1
  }

  // ---------------------------------------------------------------- preservation

  lemma FreshInv()
    ensures TxInv(Fresh)
  {
  }

  /** Serialising or acknowledging packet `w` moves only the message it belongs to. */
  lemma DoneStep(ms: seq<Message>, m: nat, i: nat, w: nat)
    requires m < |ms| && i < |ms| && Within(ms, m, w)
    ensures Done(ms, i, w + 1) == Done(ms, i, w) + (if i == m then 1 else 0)
    ensures i == m ==> Done(ms, i, w) == w - Base(ms, m) < Count(ms[m])
  {
    hide CutAll, PackCount;
    BaseStep(ms, m);
    BaseStep(ms, i);
    if i < m { BaseMonotone(ms, i + 1, m); }
    if m < i { BaseMonotone(ms, m + 1, i); }
  }

  /** A message's bytes are all consumed exactly when its last packet is. */
  lemma ConsumedAll(m: Message, k: nat)
    requires k < Count(m)
    ensures Consumed(m, k + 1) == |m.body| <==> k + 1 == Count(m)
    ensures |PacketOf(m, k).body| == Consumed(m, k + 1) - Consumed(m, k)
    ensures Consumed(m, k + 1) - Consumed(m, k) ==
            if |m.body| > 0 then (if |m.body| - Consumed(m, k) < BODY then |m.body| - Consumed(m, k) else BODY)
            else 0
  {
  }

  /** Stepping over the last packet of message `m` enters the next message. */
  lemma WithinStep(ms: seq<Message>, m: nat, w: nat)
    requires m < |ms| && Within(ms, m, w)
    ensures Within(ms, if Done(ms, m, w) + 1 == Count(ms[m]) then m + 1 else m, w + 1)
    ensures w + 1 <= Base(ms, m + 1) <= |CutAll(ms)|
  {
    hide CutAll, PackCount;
    BaseStep(ms, m);
    StreamPrefix(ms, m + 1);
    if m + 1 < |ms| { BaseStep(ms, m + 1); }
  }

  lemma WithinUnique(ms: seq<Message>, i: nat, j: nat, n: nat)
    requires i < |ms| && Within(ms, i, n) && Within(ms, j, n)
    ensures i == j
  {
    hide CutAll, PackCount;
    if i < j { BaseMonotone(ms, i + 1, j); }
    if j < i { BaseMonotone(ms, j + 1, i); }
  }

  lemma {:induction false} UnackedSame(fs: seq<Frame>, gs: seq<Frame>, lo: nat)
    requires |fs| == |gs|
    requires forall i :: lo <= i < |fs| ==> fs[i].msg == gs[i].msg && fs[i].rpos == gs[i].rpos
    ensures Unacked(fs, lo) == Unacked(gs, lo)
    decreases |fs| - lo
  {
    if lo < |fs| { UnackedSame(fs, gs, lo + 1); }
  }

  lemma {:induction false} UnackedSnoc(fs: seq<Frame>, f: Frame, lo: nat)
    requires lo <= |fs|
    ensures Unacked(fs + [f], lo) == Unacked(fs, lo) + |f.msg.body| - f.rpos
    decreases |fs| - lo
  {
    if lo < |fs| { UnackedSnoc(fs, f, lo + 1); }
  }

  lemma WithinLonger(ms: seq<Message>, m: Message, i: nat, n: nat)
    requires Within(ms, i, n)
    ensures Within(ms + [m], i, n)
  {
    hide CutAll, PackCount;
    BaseOfLonger(ms, m, i);
    if i < |ms| { BaseOfLonger(ms, m, i + 1); } else { BaseStep(ms + [m], i); }
  }

  lemma DoneLonger(ms: seq<Message>, m: Message, i: nat, n: nat)
    requires i < |ms|
    ensures Done(ms + [m], i, n) == Done(ms, i, n)
  {
    hide CutAll, PackCount;
    BaseOfLonger(ms, m, i);
  }

  lemma QueueInv(t: Tx, m: Message)
    requires TxInv(t)
    ensures TxInv(Queue(t, m))
    ensures HasRoom(t) <==> |t.frames| < t.mrpos + MSG_RANGE
    ensures Msgs(Queue(t, m).frames) == Msgs(t.frames) + if HasRoom(t) then [m] else []
    ensures Queue(t, m).out == t.out && Queue(t, m).rpos == t.rpos && Queue(t, m).spos == t.spos
  {
    hide CutAll, PackCount;
    if HasRoom(t) {
      var t' := Queue(t, m);
      var ms := Msgs(t.frames);
      assert Msgs(t'.frames) == ms + [m];
      WithinLonger(ms, m, t.mspos, |t.out|);
      WithinLonger(ms, m, t.mrpos, t.rpos);
      CutAllSnoc(ms, m);
      UnackedSnoc(t.frames, Frame(m, 0, Count(m), 0), t.mrpos);
      assert FramesOk(t') by { QueueFrames(t, m); }
      assert PacksOk(t') by {
        forall n | 0 <= n < |t.out|
          ensures t.out[n].pack == CutAll(ms + [m])[n] && Within(ms + [m], t.out[n].msg, n)
        {
          WithinLonger(ms, m, t.out[n].msg, n);
        }
      }
    }
  }

  lemma QueueFrames(t: Tx, m: Message)
    requires Windows(t) && FramesOk(t) && HasRoom(t)
    requires Within(Msgs(t.frames), t.mspos, |t.out|)
    ensures FramesOk(Queue(t, m))
  {
    hide CutAll, PackCount;
    var t' := Queue(t, m);
    var ms := Msgs(t.frames);
    var k := |ms|;
    assert Msgs(t'.frames) == ms + [m];
    forall i | 0 <= i < k ensures t'.frames[i] == FrameAt(ms + [m], i, |t.out|, t.rpos) {
      DoneLonger(ms, m, i, |t.out|);
      DoneLonger(ms, m, i, t.rpos);
    }
    BaseMonotone(ms, t.mspos, k);
    BaseOfLonger(ms, m, k);
    if t.mspos < k { BaseMonotone(ms, t.mspos + 1, k); }
    assert Done(ms + [m], k, |t.out|) == 0 == Done(ms + [m], k, t.rpos);
  }

  lemma FramesBounded(t: Tx)
    requires FramesOk(t)
    ensures forall i :: 0 <= i < |t.frames| ==> t.frames[i].spos <= |t.frames[i].msg.body|
  {
    hide CutAll, PackCount, Done;
  }

  /** The packet that serialising appends is the next one of the cut stream. */
  lemma SerialiseShape(t: Tx)
    requires Windows(t) && FramesOk(t) && Within(Msgs(t.frames), t.mspos, |t.out|)
    ensures forall i :: 0 <= i < |t.frames| ==> t.frames[i].spos <= |t.frames[i].msg.body|
    ensures
      var t' := Serialise(t); var ms := Msgs(t.frames); var m := t.mspos;
      t' == t ||
      (&& |t.out| < t.rpos + RANGE && m < |ms|
       && var k := Done(ms, m, |t.out|);
       && k < Count(ms[m])
       && t' == t.(frames := t.frames[m := FrameAt(ms, m, |t.out| + 1, t.rpos)],
                   out := t.out + [OutPack(PacketOf(ms[m], k), m, None, true)],
                   mspos := if k + 1 == Count(ms[m]) then m + 1 else m)
       && FrameAt(ms, m, |t.out| + 1, t.rpos).rpos == t.frames[m].rpos)
  {
    hide CutAll, PackCount;
    FramesBounded(t);
    if Serialise(t) != t {
      var ms := Msgs(t.frames);
      DoneStep(ms, t.mspos, t.mspos, |t.out|);
      ConsumedAll(ms[t.mspos], Done(ms, t.mspos, |t.out|));
      assert t.frames[t.mspos] == FrameAt(ms, t.mspos, |t.out|, t.rpos);
    }
  }

  /** Only frame `m` changes when packet `w` of the stream, which is in message `m`, is
      serialised. */
  lemma FramesAfterSerialise(ms: seq<Message>, fs: seq<Frame>, m: nat, w: nat, r: nat)
    requires FramesAt(ms, fs, w, r) && m < |ms| && Within(ms, m, w)
    ensures FramesAt(ms, fs[m := FrameAt(ms, m, w + 1, r)], w + 1, r)
  {
    hide CutAll, PackCount, Done, Consumed;
    var gs := fs[m := FrameAt(ms, m, w + 1, r)];
    forall i | 0 <= i < |gs| ensures gs[i] == FrameAt(ms, i, w + 1, r) {
      DoneStep(ms, m, i, w);
    }
  }

  lemma SerialiseInv(t: Tx)
    requires TxInv(t)
    ensures forall i :: 0 <= i < |t.frames| ==> t.frames[i].spos <= |t.frames[i].msg.body|
    ensures TxInv(Serialise(t))
  {
    hide CutAll, PackCount, Consumed, Serialise, FramesAt, Base;
    SerialiseShape(t);
    var t' := Serialise(t);
    if t' != t {
      var ms := Msgs(t.frames);
      var m := t.mspos;
      var w := |t.out|;
      DoneStep(ms, m, m, w);
      assert Msgs(t'.frames) == ms;
      assert FramesOk(t') by { FramesAfterSerialise(ms, t.frames, m, w, t.rpos); }
      WithinStep(ms, m, w);
      assert PacksOk(t') by { PacketAt(ms, m, Done(ms, m, w)); }
      UnackedSame(t.frames, t'.frames, t.mrpos);
    }
  }

  /** What one acknowledgement does, said in terms of the cut stream. */
  lemma AckOneShape(t: Tx)
    requires TxInv(t) && t.rpos < t.spos
    ensures t.out[t.rpos].msg == t.mrpos < |t.frames|
    ensures
      var ms := Msgs(t.frames); var m := t.mrpos; var r := t.rpos; var o := t.out[r];
      var k := Done(ms, m, r);
      var last := k + 1 == Count(ms[m]);
      && k < Count(ms[m])
      && o.pack == PacketOf(ms[m], k)
      && AckOne(t) == t.(
           frames := t.frames[m := FrameAt(ms, m, |t.out|, r + 1)],
           out := t.out[r := o.(waiting := false)], rpos := r + 1,
           rbytes := t.rbytes + |o.pack.body|,
           reported := if last then t.reported + [m] else t.reported,
           mrpos := if last then m + 1 else m)
      && FrameAt(ms, m, |t.out|, r + 1).rpos == t.frames[m].rpos + |o.pack.body|
      && (last ==> FrameAt(ms, m, |t.out|, r + 1).rpos == |ms[m].body|)
  {
    hide CutAll, PackCount;
    var ms := Msgs(t.frames);
    var r := t.rpos;
    var m := t.out[r].msg;
    WithinUnique(ms, m, t.mrpos, r);
    DoneStep(ms, m, m, r);
    var k := Done(ms, m, r);
    ConsumedAll(ms[m], k);
    PacketAt(ms, m, k);
    assert t.frames[m] == FrameAt(ms, m, |t.out|, r);
  }

  lemma FramesAfterAck(ms: seq<Message>, fs: seq<Frame>, m: nat, w: nat, r: nat)
    requires FramesAt(ms, fs, w, r) && m < |ms| && Within(ms, m, r)
    ensures FramesAt(ms, fs[m := FrameAt(ms, m, w, r + 1)], w, r + 1)
  {
    hide CutAll, PackCount, Done, Consumed;
    var gs := fs[m := FrameAt(ms, m, w, r + 1)];
    forall i | 0 <= i < |gs| ensures gs[i] == FrameAt(ms, i, w, r + 1) {
      DoneStep(ms, m, i, r);
    }
  }

  lemma AckOneInv(t: Tx)
    requires TxInv(t) && t.rpos < t.spos
    ensures t.out[t.rpos].msg == t.mrpos < |t.frames|
    ensures TxInv(AckOne(t))
    ensures var r := AckOne(t);
            && r.rpos == t.rpos + 1 && r.spos == t.spos && Msgs(r.frames) == Msgs(t.frames)
            && r.out == t.out[t.rpos := t.out[t.rpos].(waiting := false)]
  {
    hide CutAll, PackCount, Consumed, AckOne, FramesAt, Base;
    AckOneShape(t);
    var t' := AckOne(t);
    var ms := Msgs(t.frames);
    var m := t.mrpos;
    assert Msgs(t'.frames) == ms;
    assert FramesOk(t') by { FramesAfterAck(ms, t.frames, m, |t.out|, t.rpos); }
    WithinStep(ms, m, t.rpos);
    AckOneStaysBehind(t, ms, Done(ms, m, t.rpos));
    assert PacksOk(t');
    UnackedSame(t.frames, t'.frames, m + 1);
  }

  /** A message whose last packet is acknowledged has been serialised to the end. */
  lemma AckOneStaysBehind(t: Tx, ms: seq<Message>, k: nat)
    requires ms == Msgs(t.frames) && t.rpos < |t.out| && t.mrpos < |ms|
    requires Within(ms, t.mrpos, t.rpos) && Within(ms, t.mspos, |t.out|) && t.mrpos <= t.mspos
    requires k == Done(ms, t.mrpos, t.rpos)
    ensures k + 1 == Count(ms[t.mrpos]) ==> t.mrpos < t.mspos
  {
    hide CutAll, PackCount;
    DoneStep(ms, t.mrpos, t.mrpos, t.rpos);
    BaseStep(ms, t.mrpos);
  }

  // ---------------------------------------------------------------- acknowledgements

  /** Same packets in the same places; headers and marks may differ. */
  ghost predicate SamePacks(o: seq<OutPack>, o': seq<OutPack>) {
    |o| == |o'| && forall n :: 0 <= n < |o| ==> o'[n].pack == o[n].pack && o'[n].msg == o[n].msg
  }

  /** Rewriting headers and marks of packets that are still live keeps the invariant. */
  lemma RelabelInv(t: Tx, o: seq<OutPack>, s: nat)
    requires TxInv(t) && SamePacks(t.out, o) && t.rpos <= s <= |o|
    requires forall n :: 0 <= n < t.rpos ==> !o[n].waiting
    ensures TxInv(t.(out := o, spos := s))
  {
    hide FramesAt, CutAll, Base, Unacked;
    var t' := t.(out := o, spos := s);
    assert PacksOk(t');
  }

  /** Every packet in the ring belongs to a queued message. */
  predicate Linked(t: Tx) {
    Windows(t) && forall n :: t.rpos <= n < |t.out| ==> t.out[n].msg < |t.frames|
  }

  /** `k` turns of the cumulative loop. */
  function AckTo(t: Tx, k: nat): Tx
    requires t.rpos + k <= |t.out|
    requires forall n :: t.rpos <= n < |t.out| ==> t.out[n].msg < |t.frames|
    decreases k
  {
    if k == 0 then t else AckTo(AckOne(t), k - 1)
  }

  lemma {:induction false} AckToInv(t: Tx, k: nat)
    requires TxInv(t) && k <= t.spos - t.rpos
    ensures Linked(t)
    ensures TxInv(AckTo(t, k))
    ensures var r := AckTo(t, k);
            && r.rpos == t.rpos + k && r.spos == t.spos && Msgs(r.frames) == Msgs(t.frames)
            && SamePacks(t.out, r.out)
            && forall n :: 0 <= n < |r.out| ==>
                 r.out[n] == t.out[n].(waiting := t.out[n].waiting && n >= t.rpos + k)
    decreases k
  {
    hide FramesAt, CountsOk, Within, AckOne, CutAll;
    if k > 0 {
      AckOneInv(t);
      AckToInv(AckOne(t), k - 1);
    }
  }

  lemma {:induction false} AckToSnoc(t: Tx, k: nat)
    requires t.rpos + k < |t.out|
    requires forall n :: t.rpos <= n < |t.out| ==> t.out[n].msg < |t.frames|
    ensures var u := AckTo(t, k);
            && u.rpos == t.rpos + k && |u.out| == |t.out| && u.out[u.rpos].msg < |u.frames|
            && AckTo(t, k + 1) == AckOne(u)
    decreases k
  {
    if k > 0 { AckToSnoc(AckOne(t), k - 1); }
  }

  /** The serial whose packet sits in slot sn & (range - 1) when `w` packets were serialised;
      negative when that slot has never been used. */
  function Occupant(w: nat, sn: nat): (n: int)
    ensures w - RANGE <= n < w
  {
    w - 1 - (w - 1 - sn) % RANGE
  }

  lemma OccupantSlot(w: nat, sn: nat)
    ensures Slot(Occupant(w, sn)) == Slot(sn)
  {
    var d := w - 1 - sn;
    assert Occupant(w, sn) == sn + RANGE * (d / RANGE);
    SlotShift(sn, d / RANGE);
  }

  function Mark(t: Tx, n: int): Tx {
    if 0 <= n < |t.out| then t.(out := t.out[n := t.out[n].(waiting := false)]) else t
  }

  /** A repeated packet that carries an acknowledgement carries the receiver's newest
      position, but the serial it carried before. */
  function Renew(a: Option<Ack>, pos: nat): Option<Ack> {
    if a.Some? then Some(Ack(a.value.sn, pos)) else None
  }

  /** Fast retransmission renews the headers of the packets it tries. */
  function Refresh(t: Tx, touched: set<nat>, pos: nat): Tx {
    t.(out := seq(|t.out|, n requires 0 <= n < |t.out| =>
         if n in touched then t.out[n].(ack := Renew(t.out[n].ack, pos)) else t.out[n]))
  }

  /** Only packets between rpos and wpos that are not known to have arrived are tried. */
  predicate Touchable(t: Tx, touched: set<nat>) {
    forall n :: n in touched ==> t.rpos <= n < |t.out| && t.out[n].waiting
  }

  /** The scan goes from rpos up to the acknowledged serial. When that is within the window it
      tries nothing behind it; when it has wrapped to a serial behind rpos it may try anything. */
  predicate Scanned(t: Tx, sn: nat, touched: set<nat>) {
    Gap(sn, t.rpos) <= RANGE ==> forall n :: n in touched ==> n < t.rpos + Gap(sn, t.rpos)
  }

  /** What the scan must try, with `tries` the transmissions of every packet so far: the packets in
      front of the acknowledged serial that look lost and were sent less than twice, oldest first,
      up to the first that the socket takes, and no others. */
  ghost predicate Tried(t: Tx, tries: seq<nat>, sn: nat, touched: set<nat>, which: Option<nat>) {
    && |tries| == |t.out|
    && (forall n :: n in touched ==> n < |tries| && tries[n] < 2)
    && (forall n :: t.rpos <= n < |t.out| && n < t.rpos + Gap(sn, t.rpos) && t.out[n].waiting && tries[n] < 2 ==>
          n in touched || (which.Some? && which.value < n))
    && (which.Some? && Gap(sn, t.rpos) <= RANGE ==> forall n :: n in touched ==> n <= which.value)
  }

  /** Every packet tried counts at least once more, up to two; exactly once when the walk does not
      go round the ring. */
  ghost predicate Recounted(t: Tx, tries: seq<nat>, sn: nat, touched: set<nat>, tries': seq<nat>) {
    && |tries'| == |tries|
    && (forall n :: 0 <= n < |tries| && n !in touched ==> tries'[n] == tries[n])
    && (forall n :: 0 <= n < |tries| && n in touched ==> tries[n] < tries'[n] <= 2)
    && (Gap(sn, t.rpos) <= RANGE ==> forall n :: 0 <= n < |tries| && n in touched ==> tries'[n] == tries[n] + 1)
  }

  lemma MarkInv(t: Tx, n: int)
    requires TxInv(t)
    ensures TxInv(Mark(t, n)) && SamePacks(t.out, Mark(t, n).out)
  {
    hide FramesAt, CountsOk, Within;
    RelabelInv(t, Mark(t, n).out, t.spos);
  }

  /** An admitted acknowledgement never releases past spos, whatever numbers it carries. */
  lemma AdvanceBounded(t: Tx, a: Ack)
    requires Windows(t)
    ensures Advance(t, a) <= t.spos - t.rpos
  {
    assert Gap(t.spos, t.rpos) == t.spos - t.rpos;
  }

  predicate Admits(t: Tx, a: Ack) { Gap(t.spos, t.rpos) > 0 && InWindow(t.rpos, t.spos, a.sn) }

  function Advance(t: Tx, a: Ack): nat {
    if InWindow(t.rpos, t.spos, a.pos) then Gap(a.pos, t.rpos) else 0
  }

  /** xchannel_recv_ack up to its fast retransmission. */
  function Acked(t: Tx, a: Ack): Tx
    requires Linked(t)
  {
    if !Admits(t, a) then t
    else
      AdvanceBounded(t, a);
      var t1 := AckTo(t, Advance(t, a));
      if U16(a.sn) == U16(a.pos) then t1 else Mark(t1, Occupant(|t1.out|, a.sn))
  }

  /** For every pair of numbers an acknowledgement may carry: the invariant holds, no header or
      packet changes, rpos moves by `Advance`, and besides the released packets at most the one
      in the acknowledged slot is marked. */
  lemma AckedInv(t: Tx, a: Ack)
    requires TxInv(t)
    ensures Linked(t) && TxInv(Acked(t, a))
    ensures var r := Acked(t, a);
            && SamePacks(t.out, r.out) && Msgs(r.frames) == Msgs(t.frames) && r.spos == t.spos
            && r.rpos == t.rpos + (if Admits(t, a) then Advance(t, a) else 0) <= t.spos
            && (forall n :: 0 <= n < |r.out| ==> r.out[n].ack == t.out[n].ack)
            && (forall n :: 0 <= n < |r.out| && t.out[n].waiting && !r.out[n].waiting ==>
                  n < r.rpos || (Admits(t, a) && U16(a.sn) != U16(a.pos) && n == Occupant(|t.out|, a.sn)))
            && (forall n :: 0 <= n < |r.out| && r.out[n].waiting ==> t.out[n].waiting)
  {
    hide FramesAt, PacksOk, CountsOk, Within, CutAll, Occupant, AckTo;
    AckToInv(t, 0);
    if Admits(t, a) {
      AdvanceBounded(t, a);
      AckToInv(t, Advance(t, a));
      var t1 := AckTo(t, Advance(t, a));
      if U16(a.sn) != U16(a.pos) { MarkInv(t1, Occupant(|t1.out|, a.sn)); }
    }
  }

  /** Fast retransmission runs when the acknowledged serial is more than three ahead. */
  predicate Hurries(t: Tx, a: Ack) {
    Admits(t, a) && U16(a.sn) != U16(a.pos) && Gap(a.sn, t.rpos + Advance(t, a)) > 3
  }

  /** The test of the cumulative loop after `k` turns says whether there is a turn left. */
  lemma AckLoopTest(rpos: nat, spos: nat, pos: nat, k: nat)
    requires rpos <= spos <= rpos + RANGE
    requires k <= if InWindow(rpos, spos, pos) then Gap(pos, rpos) else 0
    ensures Gap(pos, rpos + k) <= Gap(spos, rpos + k) && Gap(rpos + k, pos) != 0 <==>
            k < if InWindow(rpos, spos, pos) then Gap(pos, rpos) else 0
  {
    assert Gap(spos, rpos) == spos - rpos;
    if InWindow(rpos, spos, pos) {
      var d := Gap(pos, rpos);
      var q := (pos - rpos) / WRAP;
      assert pos == rpos + d + WRAP * q;
      ModShift(d - k, -q);
      assert Gap(pos, rpos + k) == d - k;
      ModShift(k - d, q);
      assert Gap(rpos + k, pos) == (k - d) % WRAP;
    }
  }
}
