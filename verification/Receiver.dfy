/** The receiving half of an XLTP channel: the out-of-order ring, the acknowledgement it
    prepares, and delivery into reassembly.

    Between calls rpos == wpos; `pos` is that common position. */
module Receiver {
  import opened Common
  import opened Serial
  import opened Segmentation
  import opened Sender

  datatype Rx = Rx(
    slots: seq<Option<Packet>>, pos: nat,
    ack: Ack, pending: bool,
    log: seq<Packet>, asm: Assembly, got: seq<Message>)

  predicate IsFresh(r: Rx) {
    && |r.slots| == RANGE && (forall i :: 0 <= i < RANGE ==> r.slots[i].None?)
    && r.pos == 0 && r.log == [] && r.asm == Idle && r.got == []
    && r.ack == Ack(0, 0) && !r.pending
  }

  predicate Ring(r: Rx) { |r.slots| == RANGE }

  /** The received packets, in order, explain what was delivered and what is being filled. */
  ghost predicate RxInv(r: Rx) {
    Ring(r) && FeedAll(Idle, r.log) == Fed(r.asm, r.got)
  }

  function Place(r: Rx, n: nat, p: Packet): (r': Rx)
    requires Ring(r)
    ensures Ring(r')
  {
    r.(slots := r.slots[Slot(n) := Some(p)])
  }

  /** Hand the packet at `pos` to reassembly and free its slot. */
  function DrainOne(r: Rx): (r': Rx)
    requires Ring(r) && r.slots[Slot(r.pos)].Some?
    ensures Ring(r')
  {
    var p := r.slots[Slot(r.pos)].value;
    var f := Feed(r.asm, p);
    r.(slots := r.slots[Slot(r.pos) := None], pos := r.pos + 1,
       log := r.log + [p], asm := f.asm, got := r.got + f.done)
  }

  function Drain(r: Rx, k: nat): (r': Rx)
    requires Ring(r)
    ensures Ring(r')
    decreases k
  {
    if k == 0 || r.slots[Slot(r.pos)].None? then r else Drain(DrainOne(r), k - 1)
  }

  /** A packet is new when it is the awaited one, or early with its slot still empty. */
  predicate Accepts(r: Rx, n: nat)
    requires Ring(r)
  {
    match Arrive(r.pos, n)
    case Exact => true
    case Early => r.slots[Slot(n)].None?
    case Late => false
  }

  /** xchannel_recv_pack and the xchannel_recv_msg it ends with, for any serial and packet. */
  function Take(r: Rx, n: nat, p: Packet): (r': Rx)
    requires Ring(r)
    ensures Ring(r')
  {
    match Arrive(r.pos, n)
    case Exact =>
      var d := Drain(Place(r, n, p), RANGE);
      d.(ack := Ack(d.pos, d.pos), pending := true)
    case Early =>
      var s := if r.slots[Slot(n)].None? then Place(r, n, p) else r;
      s.(ack := Ack(n, r.pos), pending := true)
    case Late =>
      r.(ack := Ack(r.pos, r.pos), pending := true)
  }

  // ---------------------------------------------------------------- for any peer

  /** Draining stops in front of an empty slot even when the ring was full, and touches only
      the slots it has passed. */
  lemma {:induction false} DrainStops(r: Rx, k: nat)
    requires Ring(r) && k <= RANGE
    ensures var d := Drain(r, k);
            && r.pos <= d.pos <= r.pos + k
            && (d.pos < r.pos + k ==> d.slots[Slot(d.pos)].None?)
            && (forall i :: 0 <= i < RANGE ==>
                  d.slots[i] == if SerialAt(r.pos, i) < d.pos then None else r.slots[i])
            && d.ack == r.ack && d.pending == r.pending
    decreases k
  {
    if k > 0 && r.slots[Slot(r.pos)].Some? {
      var s := DrainOne(r);
      DrainStops(s, k - 1);
      forall i | 0 <= i < RANGE
        ensures SerialAt(s.pos, i) == if i == Slot(r.pos) then r.pos + RANGE else SerialAt(r.pos, i)
      {
        SerialAtStep(r.pos, i);
      }
      SerialAtUnique(r.pos, r.pos);
    } else {
      forall i | 0 <= i < RANGE ensures SerialAt(r.pos, i) >= r.pos {}
    }
  }

  /** After a full drain the awaited slot is empty, also when all slots were filled. */
  lemma DrainEmpties(r: Rx)
    requires Ring(r)
    ensures Drain(r, RANGE).slots[Slot(Drain(r, RANGE).pos)].None?
  {
    DrainStops(r, RANGE);
    var d := Drain(r, RANGE);
    if d.pos == r.pos + RANGE {
      SlotShift(r.pos, 1);
      SerialAtUnique(r.pos, r.pos);
    }
  }

  lemma {:induction false} DrainInv(r: Rx, k: nat)
    requires RxInv(r)
    ensures RxInv(Drain(r, k))
    decreases k
  {
    hide FeedAll, Feed;
    if k > 0 && r.slots[Slot(r.pos)].Some? {
      FeedSnoc(Idle, r.log, r.slots[Slot(r.pos)].value);
      DrainInv(DrainOne(r), k - 1);
    }
  }

  lemma TakeInv(r: Rx, n: nat, p: Packet)
    requires RxInv(r)
    ensures RxInv(Take(r, n, p))
  {
    hide FeedAll, Feed, Drain;
    DrainInv(Place(r, n, p), RANGE);
  }

  lemma {:induction false} DrainSnoc(r: Rx, k: nat)
    requires Ring(r) && k < RANGE
    requires var d := Drain(r, k); d.pos == r.pos + k && d.slots[Slot(d.pos)].Some?
    ensures Drain(r, k + 1) == DrainOne(Drain(r, k))
    decreases k
  {
    if k > 0 {
      DrainStops(DrainOne(r), k - 1);
      DrainSnoc(DrainOne(r), k - 1);
    }
  }

  /** Once draining has stopped, a larger budget changes nothing. */
  lemma {:induction false} DrainStable(r: Rx, k: nat, l: nat)
    requires Ring(r) && k <= l
    requires var d := Drain(r, k); d.slots[Slot(d.pos)].None?
    ensures Drain(r, l) == Drain(r, k)
    decreases k
  {
    if k > 0 && r.slots[Slot(r.pos)].Some? { DrainStable(DrainOne(r), k - 1, l - 1); }
  }

  /** `c` filled slots in a row from `pos` on. */
  ghost predicate Gapless(r: Rx, c: nat)
    requires Ring(r)
  {
    forall n :: r.pos <= n < r.pos + c ==> r.slots[Slot(n)].Some?
  }

  /** After `j` turns of the delivery loop there is a packet left exactly when fewer than `c`
      packets have been delivered. */
  lemma DrainPrefix(r: Rx, c: nat, j: nat)
    requires Ring(r) && j <= c <= RANGE && Gapless(r, c)
    requires c == RANGE || r.slots[Slot(r.pos + c)].None?
    ensures var d := Drain(r, j); d.pos == r.pos + j && (d.slots[Slot(d.pos)].Some? <==> j < c)
    decreases j
  {
    if j > 0 {
      DrainPrefix(r, c, j - 1);
      DrainSnoc(r, j - 1);
    }
    DrainStops(r, j);
    if j < c {
      SerialAtUnique(r.pos, r.pos + j);
    } else if c < RANGE {
      SerialAtUnique(r.pos, r.pos + c);
    } else {
      SlotShift(r.pos, 1);
      SerialAtUnique(r.pos, r.pos);
    }
  }

  // ---------------------------------------------------------------- for a conforming peer

  /** The receiver has packet `n`: delivered, or waiting in its slot. */
  predicate Held(r: Rx, n: nat)
    requires Ring(r)
  {
    n < r.pos || (n < r.pos + RANGE && r.slots[Slot(n)].Some?)
  }

  /** An acknowledgement claims only what the receiver has. */
  predicate Truthful(r: Rx, a: Ack)
    requires Ring(r)
  {
    a.pos <= r.pos && (a.sn <= a.pos || Held(r, a.sn))
  }

  /** The receiver is on stream `S`: it has delivered a prefix, and each used slot holds the
      one packet of the window that belongs there. */
  ghost predicate Follows(r: Rx, S: seq<Packet>) {
    && Ring(r)
    && r.pos <= |S| && r.log == S[..r.pos]
    && forall i :: 0 <= i < RANGE && r.slots[i].Some? ==>
         SerialAt(r.pos, i) < |S| && r.slots[i].value == S[SerialAt(r.pos, i)]
  }

  predicate Awaiting(r: Rx)
    requires Ring(r)
  {
    r.slots[Slot(r.pos)].None?
  }

  lemma DrainOneFollows(r: Rx, S: seq<Packet>)
    requires Follows(r, S) && r.slots[Slot(r.pos)].Some?
    ensures Follows(DrainOne(r), S)
    ensures forall n :: Held(r, n) ==> Held(DrainOne(r), n)
  {
    hide Feed;
    var d := DrainOne(r);
    SerialAtUnique(r.pos, r.pos);
    assert d.log == S[..d.pos];
    forall i | 0 <= i < RANGE && d.slots[i].Some?
      ensures SerialAt(d.pos, i) == SerialAt(r.pos, i)
    {
      SerialAtStep(r.pos, i);
    }
    forall n | Held(r, n) ensures Held(d, n) {
      if r.pos < n { SerialAtUnique(r.pos, n); }
    }
  }

  lemma {:induction false} DrainFollows(r: Rx, S: seq<Packet>, k: nat)
    requires Follows(r, S)
    ensures Follows(Drain(r, k), S) && r.pos <= Drain(r, k).pos
    ensures forall n :: Held(r, n) ==> Held(Drain(r, k), n)
    decreases k
  {
    hide Follows, Held;
    FollowsBasics(r, S);
    if k > 0 && r.slots[Slot(r.pos)].Some? {
      DrainOneFollows(r, S);
      DrainFollows(DrainOne(r), S, k - 1);
    }
  }

  lemma PlaceFollows(r: Rx, S: seq<Packet>, n: nat, p: Packet)
    requires Follows(r, S) && r.pos <= n < |S| && n < r.pos + RANGE && p == S[n]
    ensures Follows(Place(r, n, p), S)
    ensures Held(Place(r, n, p), n)
    ensures forall j :: Held(r, j) ==> Held(Place(r, n, p), j)
  {
    SerialAtUnique(r.pos, n);
  }

  /** One datagram of stream `S`, at most 32768 serials late and inside the window: the receiver
      stays on the stream, the awaited slot is empty, nothing held is lost, a packet that is
      not late is held afterwards, and the prepared acknowledgement is true. */
  lemma TakeFollows(r: Rx, S: seq<Packet>, n: nat, p: Packet)
    requires Follows(r, S) && Awaiting(r) && RxInv(r)
    requires n < |S| <= r.pos + RANGE && p == S[n]
    requires r.pos - n <= MAX_DATA_LAG
    ensures var t := Take(r, n, p);
            && Follows(t, S) && Awaiting(t) && RxInv(t) && r.pos <= t.pos
            && (forall j :: Held(r, j) ==> Held(t, j))
            && Held(t, n) && Truthful(t, t.ack)
  {
    hide Drain, FeedAll;
    ArrivalIsExact(r.pos, n);
    TakeInv(r, n, p);
    if n == r.pos {
      PlaceFollows(r, S, n, p);
      DrainFollows(Place(r, n, p), S, RANGE);
      DrainEmpties(Place(r, n, p));
    } else if n > r.pos {
      if r.slots[Slot(n)].None? {
        PlaceFollows(r, S, n, p);
        SlotsDiffer(r.pos, n);
      }
    }
  }

  /** A packet inside the window and at most 32768 serials late counts as new exactly when the
      receiver does not have it. */
  lemma AcceptsIff(r: Rx, n: nat)
    requires Ring(r) && Awaiting(r) && n < r.pos + RANGE && r.pos - n <= MAX_DATA_LAG
    ensures Accepts(r, n) <==> !Held(r, n)
  {
    ArrivalIsExact(r.pos, n);
  }

  lemma {:induction false} DrainHolds(r: Rx, k: nat)
    requires Ring(r)
    ensures forall j :: Held(Drain(r, k), j) <==> Held(r, j)
    decreases k
  {
    hide Feed;
    if k > 0 && r.slots[Slot(r.pos)].Some? {
      var d := DrainOne(r);
      DrainHolds(d, k - 1);
      forall j: nat ensures Held(d, j) <==> Held(r, j) {
        if r.pos < j < r.pos + RANGE { SlotsDiffer(r.pos, j); }
        if j == r.pos + RANGE { SlotShift(r.pos, 1); }
      }
    }
  }

  /** What such a packet changes and how it is answered: it is held afterwards, and nothing else
      that was not; an early one is acknowledged by its serial, any other by the position, which is
      that of the first packet not held. */
  lemma TakeAnswers(r: Rx, n: nat, p: Packet)
    requires Ring(r) && Awaiting(r) && n < r.pos + RANGE && r.pos - n <= MAX_DATA_LAG
    ensures var t := Take(r, n, p);
            && (forall j :: Held(t, j) <==> Held(r, j) || j == n)
            && Awaiting(t) && !Held(t, t.pos) && t.pending && t.ack.pos == t.pos
            && t.ack.sn == (if n > r.pos then n else t.pos) && (n != r.pos ==> t.pos == r.pos)
  {
    hide Drain;
    ArrivalIsExact(r.pos, n);
    var q := Place(r, n, p);
    forall j: nat | r.pos <= n ensures Held(q, j) <==> Held(r, j) || j == n {
      SerialAtUnique(r.pos, n);
      if r.pos <= j < r.pos + RANGE { SerialAtUnique(r.pos, j); }
    }
    if n == r.pos {
      DrainHolds(q, RANGE);
      DrainEmpties(q);
    } else if n > r.pos {
      SlotsDiffer(r.pos, n);
    }
  }

  lemma FollowsBasics(r: Rx, S: seq<Packet>)
    requires Follows(r, S)
    ensures Ring(r) && r.pos <= |S| && r.log == S[..r.pos]
  {
  }

  /** No two serials of one window share a slot. */
  lemma SlotsDiffer(lo: nat, n: nat)
    requires lo < n < lo + RANGE
    ensures Slot(lo) != Slot(n)
  {
    SerialAtUnique(lo, lo);
    SerialAtUnique(lo, n);
  }

  lemma TruthfulStays(r: Rx, t: Rx, a: Ack)
    requires Ring(r) && Ring(t) && r.pos <= t.pos && Truthful(r, a)
    requires forall j :: Held(r, j) ==> Held(t, j)
    ensures Truthful(t, a)
    ensures Truthful(t, Ack(a.sn, t.pos))
  {
  }
}
