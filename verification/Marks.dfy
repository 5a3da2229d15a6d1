/** What the time stamps in the send ring say about the peer. A packet whose stamp is cleared is
    not repeated by fast retransmission, so a stamp should be cleared only for a packet that has
    arrived. That holds while no acknowledged serial that is heard is stale, and only then. */
module Marks {
  import opened Common
  import opened Serial
  import opened Segmentation
  import opened Sender
  import opened Receiver
  import opened Protocol

  /** A packet that the sender believes to have arrived has arrived. */
  ghost predicate TrueMarks(r: Rx, o: seq<OutPack>)
    requires Ring(r)
  {
    forall n :: 0 <= n < |o| && !o[n].waiting ==> Held(r, n)
  }

  /** The serial acknowledged in what is heard is not stale. */
  ghost predicate Punctual(s: Net, step: Step)
    requires Ring(s.x.rx)
  {
    step.Deliver? && Listens(s.x, step.d) ==> NotStale(s.x.tx.rpos, s.x.tx.spos, AckIn(step.d).value.sn)
  }

  ghost predicate PunctualStep(s: Net, s': Net, step: Step) {
    StepX(s, s', step) && Punctual(s, step)
  }

  ghost predicate PunctualNext(s: Net, s': Net) {
    || (exists step :: PunctualStep(s, s', step))
    || (exists step :: PunctualStep(Mirror(s), Mirror(s'), step))
  }

  ghost predicate PunctualRun(states: seq<Net>) {
    |states| > 0 && Start(states[0])
    && forall i :: 0 <= i < |states| - 1 ==> PunctualNext(states[i], states[i + 1])
  }

  ghost predicate MarksOk(s: Net)
    requires Ring(s.x.rx) && Ring(s.y.rx)
  {
    TrueMarks(s.y.rx, s.x.tx.out) && TrueMarks(s.x.rx, s.y.tx.out)
  }

  // ---------------------------------------------------------------- one acknowledgement

  /** The packet an admitted acknowledgement marks is the one it acknowledges exactly when the
      acknowledged serial is not stale. */
  lemma MarkIff(t: Tx, r: Rx, a: Ack)
    requires TxInv(t) && Follows(r, Packs(t.out)) && t.rpos <= r.pos && Truthful(r, a)
    requires Admits(t, a) && U16(a.sn) != U16(a.pos)
    ensures Occupant(|t.out|, a.sn) == a.sn <==> NotStale(t.rpos, t.spos, a.sn)
  {
    hide FramesAt, CountsOk, Within, PacksOk, FeedAll;
    if NotStale(t.rpos, t.spos, a.sn) {
      AckIsExact(t, r, a);
    } else {
      assert a.sn < |t.out| - RANGE;
    }
  }

  /** With a serial that is not stale, hearing an acknowledgement marks only what arrived. */
  lemma HearMarks(e: Endpoint, r: Rx, a: Ack, touched: set<nat>)
    requires TxInv(e.tx) && Ready(e.tx) && Follows(r, Packs(e.tx.out)) && e.tx.rpos <= r.pos && Truthful(r, a)
    requires NotStale(e.tx.rpos, e.tx.spos, a.pos) && NotStale(e.tx.rpos, e.tx.spos, a.sn)
    requires TrueMarks(r, e.tx.out)
    ensures TrueMarks(r, Hear(e, a, touched).tx.out)
  {
    hide TxInv, RxInv, Acked, Occupant, Admits, Advance, Held, AckTo, Follows, Truthful, Hurries;
    var t := e.tx;
    FollowsBasics(r, Packs(t.out));
    AckedFlow(t, r, a);
    AckIsExact(t, r, a);
    AckedInv(t, a);
    HeldBelow(r);
    var u := Acked(t, a);
    assert TrueMarks(r, u.out);
    if Hurries(t, a) { RefreshMarks(r, u, touched, e.rx.pos); }
  }

  lemma HeldBelow(r: Rx)
    requires Ring(r)
    ensures forall n: nat :: n < r.pos ==> Held(r, n)
  {
  }

  lemma RefreshMarks(r: Rx, u: Tx, touched: set<nat>, pos: nat)
    requires Ring(r) && TrueMarks(r, u.out)
    ensures TrueMarks(r, Refresh(u, touched, pos).out)
  {
  }

  // ---------------------------------------------------------------- every run

  lemma SenderMarks(s: Net, s': Net, step: Step)
    requires Inv(s) && PunctualStep(s, s', step) && Ring(s.y.rx) && TrueMarks(s.y.rx, s.x.tx.out)
    ensures TrueMarks(s.y.rx, s'.x.tx.out)
  {
    hide TxInv, FeedAll, Follows, SendPack, SentPack, Resend, Resent, Hear, Take, Held, Truthful;
    InvReady(s.x.tx);
    match step
    case Submit(m) =>
    case Transmit(ok) => SendPackEvolves(s.x, ok);
    case Timeout(ok) => ResendEvolves(s.x, ok);
    case Reply(ok) =>
    case Deliver(d, touched, again) =>
      if Listens(s.x, d) { HearMarks(s.x, s.y.rx, AckIn(d).value, touched); }
  }

  lemma ReceiverMarks(s: Net, s': Net, step: Step)
    requires Inv(s) && StepX(s, s', step) && TrueMarks(s.x.rx, s.y.tx.out)
    ensures Ring(s'.x.rx) && TrueMarks(s'.x.rx, s.y.tx.out)
  {
    hide TxInv, FeedAll, Follows, Serialise, Acked, AckTo, Take, Truthful, Refresh;
    match step
    case Submit(m) =>
    case Transmit(ok) =>
    case Timeout(ok) =>
    case Reply(ok) =>
    case Deliver(d, touched, again) =>
      DeliverData(s.y.tx, s.x.rx, d, s.yx, s.xy, s.x.tx.out);
      ReceiveRx(s.x, d, touched);
      hide Held;
  }

  /** In every state of every run in which no stale serial is heard, in both directions: what is
      marked as arrived has arrived. */
  lemma {:induction false} PunctualMarks(states: seq<Net>, i: nat)
    requires PunctualRun(states) && i < |states|
    ensures Inv(states[i]) && Ring(states[i].x.rx) && Ring(states[i].y.rx) && MarksOk(states[i])
    decreases i
  {
    hide Inv, StepX, TrueMarks, Punctual;
    if i == 0 {
      StartInv(states[0]);
      StartMarks(states[0]);
    } else {
      PunctualMarks(states, i - 1);
      var s, s' := states[i - 1], states[i];
      assert PunctualNext(s, s');
      if step :| PunctualStep(s, s', step) {
        MarksStep(s, s', step);
      } else {
        var step :| PunctualStep(Mirror(s), Mirror(s'), step);
        MirrorInv(s);
        MarksStep(Mirror(s), Mirror(s'), step);
        MirrorInv(Mirror(s'));
      }
    }
  }

  lemma StartMarks(s: Net)
    requires Start(s)
    ensures Ring(s.x.rx) && Ring(s.y.rx) && MarksOk(s)
  {
  }

  lemma MarksStep(s: Net, s': Net, step: Step)
    requires Inv(s) && PunctualStep(s, s', step) && Ring(s.x.rx) && Ring(s.y.rx) && MarksOk(s)
    ensures Inv(s') && Ring(s'.x.rx) && Ring(s'.y.rx) && MarksOk(s')
  {
    hide TrueMarks;
    SenderMarks(s, s', step);
    ReceiverMarks(s, s', step);
    StepKeepsInv(s, s', step);
    hide Inv, Start, Punctual;
    assert s'.y == s.y by { assert StepX(s, s', step); }
  }
}
