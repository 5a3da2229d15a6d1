/** What every run of the protocol guarantees to the users of a channel. */
module Delivery {
  import opened Common
  import opened Serial
  import opened Segmentation
  import opened Sender
  import opened Receiver
  import opened Protocol

  /** The window invariant across both endpoints. */
  ghost predicate WindowSafe(t: Tx, r: Rx) {
    && t.rpos <= r.pos <= |t.out| <= t.rpos + RANGE
    && t.rpos <= t.spos <= |t.out|
    && Ring(r) && r.slots[Slot(r.pos)].None?
  }

  /** The packets given to reassembly are a prefix of the packets serialised, each once and in
      order; a packet waiting in the ring is the right one for its slot. */
  ghost predicate StreamSafe(t: Tx, r: Rx) {
    && r.log <= Packs(t.out) && |r.log| == r.pos
    && Ring(r)
    && forall n :: r.pos <= n < r.pos + RANGE && r.slots[Slot(n)].Some? ==>
         n < |t.out| && r.slots[Slot(n)].value == t.out[n].pack
  }

  /** Every datagram ever sent carries the packet its serial was given, no matter how often it
      was repeated, and none is ahead of the receiver's window. */
  ghost predicate WireSafe(t: Tx, r: Rx, net: set<Datagram>) {
    forall d :: d in net && d.Data? ==>
      d.sn < |t.out| && d.pack == t.out[d.sn].pack && d.sn < r.pos + RANGE
  }

  /** Messages arrive unchanged and in order, and a message is reported as sent, once and in
      order, only after the peer was given it. */
  ghost predicate MessagesSafe(t: Tx, r: Rx) {
    var ms := Msgs(t.frames);
    AllFit(ms) ==>
      && !r.asm.Overflow?
      && r.got <= ms
      && |t.reported| <= |r.got|
      && forall k :: 0 <= k < |t.reported| ==> t.reported[k] == k
  }

  /** The byte counters differ by the bytes of the queued messages that are not acknowledged. */
  ghost predicate BytesSafe(t: Tx) {
    t.wbytes - t.rbytes == Unacked(t.frames, t.mrpos)
  }

  ghost predicate Safe(s: Net) {
    var t := s.x.tx; var r := s.y.rx;
    && WindowSafe(t, r) && StreamSafe(t, r) && WireSafe(t, r, s.xy)
    && MessagesSafe(t, r) && BytesSafe(t)
  }

  lemma FlowIsSafe(t: Tx, r: Rx, data: set<Datagram>, acks: set<Datagram>, heads: seq<OutPack>)
    requires Flow(t, r, data, acks, heads)
    ensures WindowSafe(t, r) && StreamSafe(t, r) && WireSafe(t, r, data) && BytesSafe(t)
  {
    hide FramesAt, PacksOk, Within, FeedAll, Truthful, Unacked;
    forall n | r.pos <= n < r.pos + RANGE && r.slots[Slot(n)].Some?
      ensures n < |t.out| && r.slots[Slot(n)].value == t.out[n].pack
    {
      SerialAtUnique(r.pos, n);
    }
  }

  /** Every position of the stream falls into one message, or behind the last. */
  lemma {:induction false} Locate(ms: seq<Message>, n: nat) returns (i: nat)
    requires n <= |CutAll(ms)|
    ensures i <= |ms| && Within(ms, i, n)
  {
    hide CutAll, PackCount;
    i := |ms|;
    StreamPrefix(ms, i);
    while n < Base(ms, i)
      invariant i <= |ms| && (i < |ms| ==> n < Base(ms, i + 1))
      invariant i == |ms| ==> n <= Base(ms, i)
      decreases i
    {
      BaseZero(ms);
      i := i - 1;
    }
  }

  lemma BaseZero(ms: seq<Message>)
    ensures Base(ms, 0) == 0
  {
  }

  lemma WithinOrder(ms: seq<Message>, i: nat, j: nat, m: nat, n: nat)
    requires Within(ms, i, m) && Within(ms, j, n) && m <= n
    ensures i <= j
  {
    hide CutAll, PackCount;
    if j < i { BaseMonotone(ms, j + 1, i); }
  }

  lemma {:induction false} FlowDelivers(t: Tx, r: Rx, data: set<Datagram>, acks: set<Datagram>, heads: seq<OutPack>)
    requires Flow(t, r, data, acks, heads)
    ensures MessagesSafe(t, r)
  {
    hide FramesAt, FeedAll, Truthful, Unacked, CutAll, PackCount, TrueData, TrueAcks, TrueHeads, Filled;
    var ms := Msgs(t.frames);
    if AllFit(ms) {
      var i := Locate(ms, r.pos);
      if i < |ms| { BaseStep(ms, i); }
      ReassemblePrefix(ms, i, r.pos - Base(ms, i));
      assert r.log == CutAll(ms)[..r.pos];
      WithinOrder(ms, t.mrpos, i, t.rpos, r.pos);
      if i < |ms| { FilledFits(ms[i], r.pos - Base(ms, i)); }
    }
  }

  lemma FilledFits(m: Message, k: nat)
    ensures !Filled(m, k).Overflow?
  {
  }

  /** In every state of every run, in both directions. */
  lemma EveryRunIsSafe(states: seq<Net>, i: nat)
    requires Run(states) && i < |states|
    ensures Safe(states[i]) && Safe(Mirror(states[i]))
  {
    hide Run, Flow, WindowSafe, StreamSafe, WireSafe, MessagesSafe, BytesSafe;
    RunKeepsInv(states, i);
    var s := states[i];
    FlowIsSafe(s.x.tx, s.y.rx, s.xy, s.yx, s.y.tx.out);
    FlowDelivers(s.x.tx, s.y.rx, s.xy, s.yx, s.y.tx.out);
    FlowIsSafe(s.y.tx, s.x.rx, s.yx, s.xy, s.x.tx.out);
    FlowDelivers(s.y.tx, s.x.rx, s.yx, s.xy, s.x.tx.out);
  }

  // ---------------------------------------------------------------- nothing is taken back

  /** What an endpoint has delivered, accepted and reported only ever grows. */
  predicate Extends(e: Endpoint, e': Endpoint) {
    && e.rx.log <= e'.rx.log && e.rx.got <= e'.rx.got
    && Msgs(e.tx.frames) <= Msgs(e'.tx.frames)
    && e.tx.reported <= e'.tx.reported
  }

  lemma {:induction false} DrainExtends(r: Rx, k: nat)
    requires Ring(r)
    ensures r.log <= Drain(r, k).log && r.got <= Drain(r, k).got
    decreases k
  {
    hide Feed;
    if k > 0 && r.slots[Slot(r.pos)].Some? { DrainExtends(DrainOne(r), k - 1); }
  }

  lemma {:induction false} AckToExtends(t: Tx, k: nat)
    requires t.rpos + k <= |t.out|
    requires forall n :: t.rpos <= n < |t.out| ==> t.out[n].msg < |t.frames|
    ensures t.reported <= AckTo(t, k).reported && Msgs(t.frames) == Msgs(AckTo(t, k).frames)
    decreases k
  {
    if k > 0 {
      AckToExtends(AckOne(t), k - 1);
      assert Msgs(AckOne(t).frames) == Msgs(t.frames);
    }
  }

  lemma StepExtends(s: Net, s': Net, step: Step)
    requires StepX(s, s', step)
    ensures Extends(s.x, s'.x)
  {
    match step
    case Submit(m) => assert Msgs(s.x.tx.frames) <= Msgs(s'.x.tx.frames);
    case Transmit(ok) => TransmitExtends(s.x, ok);
    case Timeout(ok) =>
    case Reply(ok) =>
    case Deliver(d, touched, again) =>
      hide Drain, AckTo;
      if Listens(s.x, d) {
        AdvanceBounded(s.x.tx, AckIn(d).value);
        AckToExtends(s.x.tx, Advance(s.x.tx, AckIn(d).value));
      }
      if d.Data? { DrainExtends(Place(s.x.rx, d.sn, d.pack), RANGE); }
  }

  lemma TransmitExtends(e: Endpoint, ok: bool)
    requires Ready(e.tx)
    ensures Extends(e, SendPack(e, ok))
  {
    var t := Loaded(e);
    assert Msgs(t.frames) == Msgs(e.tx.frames);
    assert Msgs(SendPack(e, ok).tx.frames) == Msgs(t.frames);
  }

  lemma {:induction false} DeliveredIsFinal(states: seq<Net>, i: nat, j: nat)
    requires Run(states) && i <= j < |states|
    ensures Extends(states[i].x, states[j].x) && Extends(states[i].y, states[j].y)
    decreases j
  {
    hide StepX;
    if i < j {
      DeliveredIsFinal(states, i, j - 1);
      var s, s' := states[j - 1], states[j];
      assert Next(s, s');
      if step :| StepX(s, s', step) {
        StepExtends(s, s', step);
        assert s'.y == s.y by { StepLeavesPeer(s, s', step); }
      } else {
        var step :| StepX(Mirror(s), Mirror(s'), step);
        StepExtends(Mirror(s), Mirror(s'), step);
        assert s'.x == s.x by { StepLeavesPeer(Mirror(s), Mirror(s'), step); }
      }
    }
  }

  lemma StepLeavesPeer(s: Net, s': Net, step: Step)
    requires StepX(s, s', step)
    ensures s'.y == s.y
  {
  }
}
