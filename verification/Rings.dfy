/** How the fixed-size rings of a channel represent the sender: packet slots, message slots and
    16-bit positions. */
module Rings {
  import opened Common
  import opened Serial
  import opened Segmentation
  import opened Sender
  import opened Protocol

  /** xpack as it sits in the send ring.  `msg` is the message slot its frame occupies. */
  datatype Pack = Pack(body: Packet, sn: nat, msg: Option<nat>, ack: Option<Ack>, ts: nat, resend: nat)

  /** What goes over the wire: every serial cut to 16 bits. */
  datatype Wire = Wire(sn: nat, body: Option<Packet>, ack: Option<Ack>)

  function Cut16(a: Ack): Ack { Ack(U16(a.sn), U16(a.pos)) }

  function CutAck(a: Option<Ack>): Option<Ack> {
    if a.Some? then Some(Cut16(a.value)) else None
  }

  function OnWire(d: Datagram): Wire {
    match d
    case Data(n, p, c) => Wire(U16(n), Some(p), CutAck(c))
    case Bare(a) => Wire(0, None, Some(Cut16(a)))
  }

  function Wired(d: Option<Datagram>): Option<Wire> {
    if d.Some? then Some(OnWire(d.value)) else None
  }

  function MsgSlot(i: int): (r: nat)
    ensures r < MSG_RANGE
  {
    i % MSG_RANGE
  }

  /** The message that slot `j` of the message ring is for when `lo` is the oldest one. */
  function MsgAt(lo: nat, j: int): (i: nat)
    ensures lo <= i < lo + MSG_RANGE
  {
    lo + (j - lo) % MSG_RANGE
  }

  ghost predicate Match(p: Pack, o: OutPack, n: nat) {
    && p.body == o.pack && p.sn == U16(n) && p.ack == CutAck(o.ack)
    && (p.ts != 0 <==> o.waiting)
  }

  /** Slot i holds the youngest packet with that slot; a slot never used has no time stamp. */
  ghost predicate RingMatch(sb: seq<Pack>, o: seq<OutPack>) {
    && |sb| == RANGE
    && forall i :: 0 <= i < RANGE ==>
         var n := Occupant(|o|, i);
         if n < 0 then sb[i].ts == 0 else Match(sb[i], o[n], n)
  }

  ghost predicate LinkMatch(sb: seq<Pack>, t: Tx) {
    && |sb| == RANGE
    && forall n :: t.rpos <= n < |t.out| ==> sb[Slot(n)].msg == Some(MsgSlot(t.out[n].msg))
  }

  /** Live messages sit in their slots, all other slots are empty. */
  ghost predicate MsgMatch(mb: seq<Option<Frame>>, t: Tx) {
    && |mb| == MSG_RANGE
    && forall j :: 0 <= j < MSG_RANGE ==>
         mb[j] == if MsgAt(t.mrpos, j) < |t.frames| then Some(t.frames[MsgAt(t.mrpos, j)]) else None
  }

  ghost predicate Shows(sb: seq<Pack>, mb: seq<Option<Frame>>, t: Tx) {
    RingMatch(sb, t.out) && LinkMatch(sb, t) && MsgMatch(mb, t)
  }

  /** The live packets' counts of transmissions. */
  ghost predicate TriesMatch(sb: seq<Pack>, tries: seq<nat>, rpos: nat, wpos: nat) {
    && |sb| == RANGE && |tries| == wpos
    && forall n :: rpos <= n < wpos ==> sb[Slot(n)].resend == tries[n]
  }

  // ---------------------------------------------------------------- slot arithmetic

  lemma OccupantStep(w: nat, i: nat)
    requires i < RANGE
    ensures Occupant(w + 1, i) == if i == Slot(w) then w else Occupant(w, i)
  {
  }

  lemma OccupantOfLive(w: nat, n: nat)
    requires w - RANGE <= n < w
    ensures Occupant(w, Slot(n)) == n
    ensures forall i :: 0 <= i < RANGE && Occupant(w, i) == n ==> i == Slot(n)
  {
    forall i | 0 <= i < RANGE && Occupant(w, i) == n ensures i == Slot(n) {
      OccupantSlot(w, i);
    }
    assert w - 1 - n == (w - 1 - n) % RANGE;
    var q := n / RANGE;
    assert w - 1 - Slot(n) == (w - 1 - n) + RANGE * q;
    SlotShift(w - 1 - n, q);
  }

  lemma MsgAtOfLive(lo: nat, i: nat)
    requires lo <= i < lo + MSG_RANGE
    ensures MsgAt(lo, MsgSlot(i)) == i
    ensures forall j :: 0 <= j < MSG_RANGE && MsgAt(lo, j) == i ==> j == MsgSlot(i)
  {
  }

  lemma MsgAtStep(lo: nat, j: nat)
    requires j < MSG_RANGE
    ensures MsgAt(lo + 1, j) == if j == MsgSlot(lo) then lo + MSG_RANGE else MsgAt(lo, j)
  {
  }

  // ---------------------------------------------------------------- ring updates

  lemma LiveSlot(sb: seq<Pack>, mb: seq<Option<Frame>>, t: Tx, n: nat)
    requires Shows(sb, mb, t) && Windows(t) && t.rpos <= n < |t.out|
    ensures Match(sb[Slot(n)], t.out[n], n) && sb[Slot(n)].msg == Some(MsgSlot(t.out[n].msg))
  {
    OccupantOfLive(|t.out|, n);
  }

  lemma LiveMsg(sb: seq<Pack>, mb: seq<Option<Frame>>, t: Tx, i: nat)
    requires Shows(sb, mb, t) && Windows(t) && t.mrpos <= i < |t.frames|
    ensures mb[MsgSlot(i)] == Some(t.frames[i])
  {
    MsgAtOfLive(t.mrpos, i);
  }

  /** Rewriting one live slot. */
  lemma RingUpdate(sb: seq<Pack>, o: seq<OutPack>, n: nat, p: Pack, q: OutPack)
    requires RingMatch(sb, o) && |o| - RANGE <= n < |o| && Match(p, q, n)
    ensures RingMatch(sb[Slot(n) := p], o[n := q])
  {
    hide Match, Occupant;
    OccupantOfLive(|o|, n);
  }

  /** Filling the next slot. */
  lemma RingAppend(sb: seq<Pack>, o: seq<OutPack>, p: Pack, q: OutPack)
    requires RingMatch(sb, o) && Match(p, q, |o|)
    ensures RingMatch(sb[Slot(|o|) := p], o + [q])
  {
    hide Match;
    forall i | 0 <= i < RANGE
      ensures Occupant(|o| + 1, i) == if i == Slot(|o|) then |o| else Occupant(|o|, i)
    {
      OccupantStep(|o|, i);
    }
    hide Occupant;
  }

  lemma LinkUpdate(sb: seq<Pack>, t: Tx, n: nat, p: Pack)
    requires LinkMatch(sb, t) && Windows(t) && t.rpos <= n < t.rpos + RANGE
    requires n < |t.out| ==> p.msg == sb[Slot(n)].msg
    ensures LinkMatch(sb[Slot(n) := p], t)
  {
    forall k | t.rpos <= k < |t.out| ensures sb[Slot(n) := p][Slot(k)].msg == Some(MsgSlot(t.out[k].msg)) {
      if k != n { SerialAtUnique(t.rpos, k); SerialAtUnique(t.rpos, n); }
    }
  }

  lemma MsgUpdate(mb: seq<Option<Frame>>, t: Tx, i: nat, f: Frame)
    requires MsgMatch(mb, t) && Windows(t) && t.mrpos <= i < |t.frames|
    ensures MsgMatch(mb[MsgSlot(i) := Some(f)], t.(frames := t.frames[i := f]))
  {
    hide MsgAt;
    MsgAtOfLive(t.mrpos, i);
  }

  lemma MsgRelease(mb: seq<Option<Frame>>, t: Tx)
    requires MsgMatch(mb, t) && Windows(t) && t.mrpos < |t.frames|
    ensures MsgMatch(mb[MsgSlot(t.mrpos) := None], t.(mrpos := t.mrpos + 1))
  {
    forall j | 0 <= j < MSG_RANGE
      ensures MsgAt(t.mrpos + 1, j) == if j == MsgSlot(t.mrpos) then t.mrpos + MSG_RANGE else MsgAt(t.mrpos, j)
    {
      MsgAtStep(t.mrpos, j);
    }
    hide MsgAt;
  }

  lemma MsgAppend(mb: seq<Option<Frame>>, t: Tx, f: Frame)
    requires MsgMatch(mb, t) && t.mrpos <= |t.frames| < t.mrpos + MSG_RANGE
    ensures MsgMatch(mb[MsgSlot(|t.frames|) := Some(f)], t.(frames := t.frames + [f]))
  {
    hide MsgAt;
    MsgAtOfLive(t.mrpos, |t.frames|);
  }

  // ---------------------------------------------------------------- counts of transmissions

  lemma TriesAt(sb: seq<Pack>, tries: seq<nat>, rpos: nat, wpos: nat, n: nat)
    requires TriesMatch(sb, tries, rpos, wpos)
    ensures |tries| == wpos && (rpos <= n < wpos ==> sb[Slot(n)].resend == tries[n])
  {
  }

  lemma TriesUpdate(sb: seq<Pack>, tries: seq<nat>, rpos: nat, wpos: nat, n: nat, k: Pack)
    requires TriesMatch(sb, tries, rpos, wpos) && rpos <= n < wpos <= rpos + RANGE
    ensures TriesMatch(sb[Slot(n) := k], tries[n := k.resend], rpos, wpos)
  {
    forall l | rpos <= l < wpos && l != n ensures Slot(l) != Slot(n) {
      SerialAtUnique(rpos, l);
      SerialAtUnique(rpos, n);
    }
  }

  lemma TriesAppend(sb: seq<Pack>, tries: seq<nat>, rpos: nat, wpos: nat, k: Pack)
    requires TriesMatch(sb, tries, rpos, wpos) && rpos <= wpos < rpos + RANGE
    ensures TriesMatch(sb[Slot(wpos) := k], tries + [k.resend], rpos, wpos + 1)
  {
    forall l | rpos <= l < wpos ensures Slot(l) != Slot(wpos) {
      SerialAtUnique(rpos, l);
      SerialAtUnique(rpos, wpos);
    }
  }

  /** A slot that keeps its count, and the release of the oldest packet. */
  lemma TriesSame(sb: seq<Pack>, tries: seq<nat>, rpos: nat, wpos: nat, i: nat, k: Pack)
    requires TriesMatch(sb, tries, rpos, wpos) && i < RANGE && k.resend == sb[i].resend
    ensures TriesMatch(sb[i := k], tries, rpos, wpos) && TriesMatch(sb[i := k], tries, rpos + 1, wpos)
  {
  }
}
