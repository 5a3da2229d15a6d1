/** How far the receiver can be. It may be ahead of what the sender has launched, because fast
    retransmission may try a packet that is serialised but not launched; this needs an
    acknowledgement whose serial is behind its position, and cannot happen without one. */
module Ahead {
  import opened Common
  import opened Serial
  import opened Segmentation
  import opened Sender
  import opened Receiver
  import opened Protocol
  import opened Marks

  /** Nothing beyond spos is on its way or has arrived. */
  ghost predicate Behind(t: Tx, r: Rx, data: set<Datagram>)
    requires Ring(r)
  {
    Bounded(r, t.spos) && forall d :: d in data && d.Data? ==> d.sn < t.spos
  }

  /** The receiver has nothing from serial `b` on. */
  ghost predicate Bounded(r: Rx, b: nat)
    requires Ring(r)
  {
    r.pos <= b && forall n: nat :: Held(r, n) ==> n < b
  }

  /** What keeps fast retransmission below spos: the release does not pass the acknowledged serial,
      as the code sees it, or nothing that is serialised and not launched looks lost. */
  ghost predicate StaysBelow(t: Tx, a: Ack)
    requires Linked(t)
  {
    || Advance(t, a) <= Gap(a.sn, t.rpos)
    || (var u := Acked(t, a); forall n :: t.spos <= n < |u.out| ==> !u.out[n].waiting)
  }

  /** No acknowledgement is heard that sends fast retransmission beyond spos. */
  ghost predicate Orderly(s: Net, step: Step)
    requires Ring(s.x.rx) && Ready(s.x.tx)
  {
    step.Deliver? && Listens(s.x, step.d) && Hurries(s.x.tx, AckIn(step.d).value) ==>
      StaysBelow(s.x.tx, AckIn(step.d).value)
  }

  ghost predicate OrderlyStep(s: Net, s': Net, step: Step) {
    StepX(s, s', step) && Orderly(s, step)
  }

  ghost predicate OrderlyNext(s: Net, s': Net) {
    || (exists step :: OrderlyStep(s, s', step))
    || (exists step :: OrderlyStep(Mirror(s), Mirror(s'), step))
  }

  ghost predicate OrderlyRun(states: seq<Net>) {
    |states| > 0 && Start(states[0])
    && forall i :: 0 <= i < |states| - 1 ==> OrderlyNext(states[i], states[i + 1])
  }

  ghost predicate BothBehind(s: Net)
    requires Ring(s.x.rx) && Ring(s.y.rx)
  {
    Behind(s.x.tx, s.y.rx, s.xy) && Behind(s.y.tx, s.x.rx, s.yx)
  }

  // ---------------------------------------------------------------- the receiver

  lemma DrainOneBounded(r: Rx, b: nat)
    requires Ring(r) && Bounded(r, b) && r.slots[Slot(r.pos)].Some?
    ensures Bounded(DrainOne(r), b)
  {
    hide Feed;
    var d := DrainOne(r);
    assert Held(r, r.pos);
    SlotShift(r.pos, 1);
    forall n: nat | Held(d, n) ensures n < b {
      if n >= d.pos && n < r.pos + RANGE { SlotsDiffer(r.pos, n); assert Held(r, n); }
    }
  }

  lemma {:induction false} DrainBounded(r: Rx, b: nat, k: nat)
    requires Ring(r) && Bounded(r, b)
    ensures Bounded(Drain(r, k), b)
    decreases k
  {
    hide Bounded;
    if k > 0 && r.slots[Slot(r.pos)].Some? {
      DrainOneBounded(r, b);
      DrainBounded(DrainOne(r), b, k - 1);
    }
  }

  lemma PlaceBounded(r: Rx, b: nat, n: nat, p: Packet)
    requires Ring(r) && Bounded(r, b) && r.pos <= n < r.pos + RANGE && n < b
    ensures Bounded(Place(r, n, p), b)
  {
    forall m: nat | Held(Place(r, n, p), m) ensures m < b {
      if r.pos <= m && Slot(m) == Slot(n) {
        SerialAtUnique(r.pos, m);
        SerialAtUnique(r.pos, n);
      } else {
        assert Held(r, m);
      }
    }
  }

  lemma TakeBounded(r: Rx, b: nat, n: nat, p: Packet)
    requires Ring(r) && Bounded(r, b) && n < r.pos + RANGE && n < b && r.pos - n <= MAX_DATA_LAG
    ensures Bounded(Take(r, n, p), b)
  {
    hide Drain;
    ArrivalIsExact(r.pos, n);
    if n >= r.pos { PlaceBounded(r, b, n, p); }
    hide Bounded, Held;
    if n == r.pos { DrainBounded(Place(r, n, p), b, RANGE); }
    SamePlaces(r, b, n, p);
  }

  /** Acknowledgements do not change what is held. */
  lemma SamePlaces(r: Rx, b: nat, n: nat, p: Packet)
    requires Ring(r) && Bounded(r, b)
    requires n >= r.pos ==> Bounded(Place(r, n, p), b)
    requires n == r.pos ==> Bounded(Drain(Place(r, n, p), RANGE), b)
    requires Arrive(r.pos, n) == TrueArrival(r.pos, n)
    ensures Bounded(Take(r, n, p), b)
  {
    var t := Take(r, n, p);
    var q :=
      if n == r.pos then Drain(Place(r, n, p), RANGE)
      else if n > r.pos && r.slots[Slot(n)].None? then Place(r, n, p)
      else r;
    assert t.pos == q.pos && t.slots == q.slots;
    forall m: nat | Held(t, m) ensures m < b { assert Held(q, m); }
  }

  // ---------------------------------------------------------------- the sender

  /** The distance the scan sees, once the release is done. */
  lemma ScanReach(t: Tx, a: Ack)
    requires Windows(t) && Hurries(t, a)
    ensures var k, g := Advance(t, a), Gap(a.sn, t.rpos + Advance(t, a));
      if k <= Gap(a.sn, t.rpos) then g == Gap(a.sn, t.rpos) - k && t.rpos + k + g <= t.spos else g > RANGE
  {
    var k, d := Advance(t, a), Gap(a.sn, t.rpos);
    AdvanceBounded(t, a);
    assert Gap(t.spos, t.rpos) == t.spos - t.rpos;
    var q := (a.sn - t.rpos) / WRAP;
    assert a.sn - (t.rpos + k) == d - k + WRAP * q;
    ModShift(a.sn - (t.rpos + k), q);
  }

  /** For any acknowledgement: fast retransmission cannot try a packet that was not launched exactly
      when the release does not pass the acknowledged serial, or no such packet looks lost. */
  lemma HurriesIff(t: Tx, a: Ack)
    requires TxInv(t) && Hurries(t, a)
    ensures Linked(t)
    ensures var u := Acked(t, a);
      (forall touched, n :: Touchable(u, touched) && Scanned(u, a.sn, touched) && n in touched ==> n < t.spos)
      <==> StaysBelow(t, a)
  {
    hide FramesAt, PacksOk, CountsOk, Within, CutAll, AckTo, Occupant;
    AckedInv(t, a);
    ScanReach(t, a);
    hide Acked, Advance, Gap;
    var u := Acked(t, a);
    if !StaysBelow(t, a) {
      var n :| t.spos <= n < |u.out| && u.out[n].waiting;
      assert Touchable(u, {n}) && Scanned(u, a.sn, {n}) && n in {n};
    }
  }

  /** With a serial that is not stale, the release passes it exactly when it ends up behind rpos. */
  lemma PassesIff(t: Tx, r: Rx, a: Ack)
    requires TxInv(t) && Follows(r, Packs(t.out)) && t.rpos <= r.pos && Truthful(r, a)
    requires NotStale(t.rpos, t.spos, a.pos) && NotStale(t.rpos, t.spos, a.sn) && Hurries(t, a)
    ensures Linked(t) && (Advance(t, a) <= Gap(a.sn, t.rpos) <==> Acked(t, a).rpos <= a.sn)
  {
    hide FramesAt, PacksOk, CountsOk, Within, CutAll, AckTo, Occupant, RxInv, Held, Truthful, Follows;
    AckedInv(t, a);
    AckIsExact(t, r, a);
    assert Gap(a.sn, t.rpos) == a.sn - t.rpos;
  }

  /** Fast retransmission stays below spos. */
  lemma HurriesBelow(t: Tx, a: Ack, touched: set<nat>)
    requires TxInv(t) && Hurries(t, a) && Linked(t) && StaysBelow(t, a)
    requires Touchable(Acked(t, a), touched) && Scanned(Acked(t, a), a.sn, touched)
    ensures forall n :: n in touched ==> n < t.spos
  {
    hide TxInv, StaysBelow, Acked, Hurries, Touchable, Scanned;
    HurriesIff(t, a);
  }

  /** What a step of the sender puts on the wire, and what it has launched afterwards. */
  lemma SenderBehind(s: Net, s': Net, step: Step)
    requires Inv(s) && OrderlyStep(s, s', step) && Ring(s.y.rx) && Behind(s.x.tx, s.y.rx, s.xy)
    ensures Behind(s'.x.tx, s.y.rx, s'.xy)
  {
    hide TxInv, FeedAll, Follows, Serialise, Hear, Take, Held, Truthful, Bounded;
    InvReady(s.x.tx);
    BoundGrows(s.y.rx, s.x.tx.spos, s'.x.tx.spos);
    match step
    case Submit(m) =>
    case Transmit(ok) => LaunchedBelow(s.x, ok);
    case Timeout(ok) => RepeatedBelow(s.x, ok);
    case Reply(ok) =>
    case Deliver(d, touched, again) => HeardBehind(s, s', step);
  }

  lemma BoundGrows(r: Rx, b: nat, c: nat)
    requires Ring(r)
    ensures Bounded(r, b) && b <= c ==> Bounded(r, c)
  {
  }

  lemma LaunchedBelow(e: Endpoint, ok: bool)
    requires Ready(e.tx)
    ensures SendPack(e, ok).tx.spos >= e.tx.spos
    ensures forall d :: d in Sent(SentPack(e, ok)) ==> d.Data? && d.sn < SendPack(e, ok).tx.spos
  {
    var t := Loaded(e);
    assert Gap(|t.out|, t.spos) > 0 && ok ==> SendPack(e, ok).tx.spos == t.spos + 1;
  }

  lemma RepeatedBelow(e: Endpoint, ok: bool)
    requires Ready(e.tx)
    ensures Resend(e).tx.spos == e.tx.spos
    ensures forall d :: d in Sent(Resent(e, ok)) ==> d.Data? && d.sn < e.tx.spos
  {
    assert Gap(e.tx.spos, e.tx.rpos) == e.tx.spos - e.tx.rpos;
  }

  lemma HeardBehind(s: Net, s': Net, step: Step)
    requires Inv(s) && OrderlyStep(s, s', step) && step.Deliver? && Ring(s.y.rx) && Behind(s.x.tx, s.y.rx, s.xy)
    ensures Behind(s'.x.tx, s.y.rx, s'.xy)
  {
    hide TxInv, FeedAll, Follows, Take, Held, Truthful, Bounded, Acked, Scanned, Touchable, Hurries, Admits, Refresh;
    var d, touched := step.d, step.touched;
    if Listens(s.x, d) {
      var a := AckIn(d).value;
      HearKeepsFlow(s.x, s.y.rx, a, touched, s.xy, s.yx, s.y.tx.out);
      AckedInv(s.x.tx, a);
      RefreshKeepsPositions(Acked(s.x.tx, a), touched, s.x.rx.pos);
      if touched != {} { HurriesBelow(s.x.tx, a, touched); }
    }
  }

  lemma RefreshKeepsPositions(u: Tx, touched: set<nat>, pos: nat)
    ensures Refresh(u, touched, pos).spos == u.spos
  {
  }

  // ---------------------------------------------------------------- every run

  lemma ReceiverBehind(s: Net, s': Net, step: Step)
    requires Inv(s) && StepX(s, s', step) && Behind(s.y.tx, s.x.rx, s.yx)
    ensures Ring(s'.x.rx) && Behind(s.y.tx, s'.x.rx, s.yx)
  {
    hide TxInv, FeedAll, Follows, Serialise, Acked, AckTo, Take, Truthful, Refresh;
    match step
    case Submit(m) =>
    case Transmit(ok) => BoundedSame(s.x.rx, s'.x.rx, s.y.tx.spos);
    case Timeout(ok) =>
    case Reply(ok) => BoundedSame(s.x.rx, s'.x.rx, s.y.tx.spos);
    case Deliver(d, touched, again) =>
      ReceiveRx(s.x, d, touched);
      if d.Data? {
        InWindowOf(s, d);
        TakeBounded(s.x.rx, s.y.tx.spos, d.sn, d.pack);
      }
  }

  lemma BoundedSame(r: Rx, r': Rx, b: nat)
    requires Ring(r) && Bounded(r, b) && r'.slots == r.slots && r'.pos == r.pos
    ensures Bounded(r', b)
  {
    forall n: nat | Held(r', n) ensures n < b { assert Held(r, n); }
  }

  lemma {:induction false} BehindStep(s: Net, s': Net, step: Step)
    requires Inv(s) && OrderlyStep(s, s', step) && Ring(s.x.rx) && Ring(s.y.rx) && BothBehind(s)
    ensures Inv(s') && Ring(s'.x.rx) && Ring(s'.y.rx) && BothBehind(s')
  {
    hide Behind;
    SenderBehind(s, s', step);
    ReceiverBehind(s, s', step);
    StepKeepsInv(s, s', step);
    hide Inv, Start, Orderly;
    assert s'.y == s.y && s'.yx == s.yx by { assert StepX(s, s', step); }
  }

  /** In every state of every run in which no acknowledgement sends fast retransmission beyond spos,
      in both directions: the receiver is not ahead of what was launched. */
  lemma {:induction false} OrderlyRunsStayBehind(states: seq<Net>, i: nat)
    requires OrderlyRun(states) && i < |states|
    ensures Inv(states[i]) && Ring(states[i].x.rx) && Ring(states[i].y.rx) && BothBehind(states[i])
    ensures states[i].y.rx.pos <= states[i].x.tx.spos && states[i].x.rx.pos <= states[i].y.tx.spos
    decreases i
  {
    hide Inv, StepX, Orderly, Held;
    if i == 0 {
      StartInv(states[0]);
      StartBehind(states[0]);
    } else {
      OrderlyRunsStayBehind(states, i - 1);
      var s, s' := states[i - 1], states[i];
      assert OrderlyNext(s, s');
      if step :| OrderlyStep(s, s', step) {
        BehindStep(s, s', step);
      } else {
        var step :| OrderlyStep(Mirror(s), Mirror(s'), step);
        MirrorInv(s);
        BehindStep(Mirror(s), Mirror(s'), step);
        MirrorInv(Mirror(s'));
      }
    }
  }

  lemma StartBehind(s: Net)
    requires Start(s)
    ensures Ring(s.x.rx) && Ring(s.y.rx) && BothBehind(s)
  {
  }
}
