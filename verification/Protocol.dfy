/** Two XLTP endpoints and a network between them that loses, repeats and reorders datagrams.

    A set of datagrams remembers everything ever sent: a datagram may be delivered at any time
    and any number of times, or never.  The only promise of the network is that a datagram is
    not delivered absurdly late (`Timely`), since serials are 16 bits wide. */
module Protocol {
  import opened Common
  import opened Serial
  import opened Segmentation
  import opened Sender
  import opened Receiver

  datatype Datagram =
    | Data(sn: nat, pack: Packet, carried: Option<Ack>)
    | Bare(ack: Ack)

  function AckIn(d: Datagram): Option<Ack> {
    match d
    case Data(_, _, c) => c
    case Bare(a) => Some(a)
  }

  datatype Endpoint = Endpoint(tx: Tx, rx: Rx)

  // ---------------------------------------------------------------- one endpoint

  /** What the send functions need to be safe to call. */
  predicate Ready(t: Tx) {
    && Windows(t)
    && (forall i :: 0 <= i < |t.frames| ==> t.frames[i].spos <= |t.frames[i].msg.body|)
    && (forall n :: t.rpos <= n < |t.out| ==> t.out[n].msg < |t.frames|)
  }

  /** The first half of xchannel_send_pack: make sure a packet is waiting if there is one, and
      put a pending acknowledgement into its header. */
  function Loaded(e: Endpoint): Tx
    requires Ready(e.tx)
  {
    var t := if Gap(|e.tx.out|, e.tx.spos) == 0 then Serialise(e.tx) else e.tx;
    if Gap(|t.out|, t.spos) > 0 && e.rx.pending then
      t.(out := t.out[t.spos := t.out[t.spos].(ack := Some(e.rx.ack))])
    else t
  }

  /** The datagram that packet `n` of the ring goes out as. */
  function Outgoing(t: Tx, n: nat): Datagram
    requires n < |t.out|
  {
    Data(n, t.out[n].pack, t.out[n].ack)
  }

  /** The packet at spos has been sent. */
  function Launched(t: Tx): Tx
    requires t.spos < |t.out|
  {
    t.(out := t.out[t.spos := t.out[t.spos].(waiting := true)], spos := t.spos + 1)
  }

  /** xchannel_send_pack; `ok` is whether the socket took the datagram. */
  function SendPack(e: Endpoint, ok: bool): Endpoint
    requires Ready(e.tx)
  {
    var t := Loaded(e);
    if Gap(|t.out|, t.spos) > 0 && ok then
      Endpoint(Serialise(Launched(t)), e.rx.(pending := false))
    else e.(tx := t)
  }

  function SentPack(e: Endpoint, ok: bool): Option<Datagram>
    requires Ready(e.tx)
  {
    var t := Loaded(e);
    if Gap(|t.out|, t.spos) > 0 && ok then Some(Outgoing(t, t.spos)) else None
  }

  /** The timeout branch of xmsger_send_all: repeat the oldest unacknowledged packet. */
  function Resend(e: Endpoint): Endpoint
    requires Ready(e.tx)
  {
    var t := e.tx;
    if Gap(t.spos, t.rpos) > 0 then
      e.(tx := t.(out := t.out[t.rpos := t.out[t.rpos].(ack := Renew(t.out[t.rpos].ack, e.rx.pos), waiting := true)]))
    else e
  }

  function Resent(e: Endpoint, ok: bool): Option<Datagram>
    requires Ready(e.tx)
  {
    var t := Resend(e).tx;
    if Gap(t.spos, t.rpos) > 0 && ok then Some(Outgoing(t, t.rpos)) else None
  }

  /** xchannel_recv_ack; `touched` are the packets fast retransmission tried. */
  function Hear(e: Endpoint, a: Ack, touched: set<nat>): Endpoint
    requires Ready(e.tx)
  {
    var t := Acked(e.tx, a);
    if Hurries(e.tx, a) then e.(tx := Refresh(t, touched, e.rx.pos)) else e.(tx := t)
  }

  /** Is the acknowledgement in this datagram looked at?  Data is looked at only on its first
      arrival. */
  predicate Listens(e: Endpoint, d: Datagram)
    requires Ring(e.rx)
  {
    d.Bare? || (d.carried.Some? && Accepts(e.rx, d.sn))
  }

  function Receive(e: Endpoint, d: Datagram, touched: set<nat>): Endpoint
    requires Ready(e.tx) && Ring(e.rx)
  {
    var e1 := if Listens(e, d) then Hear(e, AckIn(d).value, touched) else e;
    if d.Data? then e1.(rx := Take(e.rx, d.sn, d.pack)) else e1
  }

  /** At most one of the tried packets was taken by the socket. */
  ghost predicate MayHurry(e: Endpoint, d: Datagram, touched: set<nat>, again: Option<nat>)
    requires Ready(e.tx) && Ring(e.rx)
  {
    && (touched != {} ==> Listens(e, d) && Hurries(e.tx, AckIn(d).value))
    && (Listens(e, d) ==>
          var t := Acked(e.tx, AckIn(d).value);
          Touchable(t, touched) && Scanned(t, AckIn(d).value.sn, touched))
    && (again.Some? ==> again.value in touched)
  }

  function Hurried(e: Endpoint, again: Option<nat>): Option<Datagram> {
    if again.Some? && again.value < |e.tx.out| then
      Some(Outgoing(e.tx, again.value))
    else None
  }

  /** The datagram is at most so old that 16-bit serials still tell what it is: a packet its
      serial, and an acknowledgement that is looked at its position. The serial it acknowledges
      may be of any age. */
  predicate Timely(e: Endpoint, d: Datagram)
    requires Ring(e.rx)
  {
    && (d.Data? ==> e.rx.pos - d.sn <= MAX_DATA_LAG)
    && (Listens(e, d) ==> NotStale(e.tx.rpos, e.tx.spos, AckIn(d).value.pos))
  }

  // ---------------------------------------------------------------- the system

  function Sent(d: Option<Datagram>): set<Datagram> {
    if d.Some? then {d.value} else {}
  }

  /** Endpoints x and y; datagrams sent from x to y and from y to x. */
  datatype Net = Net(x: Endpoint, y: Endpoint, xy: set<Datagram>, yx: set<Datagram>)

  function Mirror(s: Net): Net { Net(s.y, s.x, s.yx, s.xy) }

  /** Two channels as xchannel_create leaves them, and nothing sent. */
  predicate Start(s: Net) {
    && s.x.tx == Fresh && s.y.tx == Fresh && IsFresh(s.x.rx) && IsFresh(s.y.rx)
    && s.xy == {} && s.yx == {}
  }

  datatype Step =
    | Submit(m: Message)
    | Transmit(ok: bool)
    | Timeout(ok: bool)
    | Reply(ok: bool)
    | Deliver(d: Datagram, touched: set<nat>, again: Option<nat>)

  /** A step taken by endpoint x. */
  ghost predicate StepX(s: Net, s': Net, step: Step) {
    && Ready(s.x.tx) && Ring(s.x.rx)
    && s'.y == s.y && s'.yx == s.yx
    && match step
       case Submit(m) => s'.x == s.x.(tx := Queue(s.x.tx, m)) && s'.xy == s.xy
       case Transmit(ok) => s'.x == SendPack(s.x, ok) && s'.xy == s.xy + Sent(SentPack(s.x, ok))
       case Timeout(ok) => s'.x == Resend(s.x) && s'.xy == s.xy + Sent(Resent(s.x, ok))
       case Reply(ok) =>
         && s'.x == s.x.(rx := s.x.rx.(pending := s.x.rx.pending && !ok))
         && s'.xy == s.xy + (if ok then {Bare(s.x.rx.ack)} else {})
       case Deliver(d, touched, again) =>
         && d in s.yx && Timely(s.x, d) && MayHurry(s.x, d, touched, again)
         && s'.x == Receive(s.x, d, touched)
         && s'.xy == s.xy + Sent(Hurried(s'.x, again))
  }

  ghost predicate Next(s: Net, s': Net) {
    || (exists step :: StepX(s, s', step))
    || (exists step :: StepX(Mirror(s), Mirror(s'), step))
  }

  ghost predicate Run(states: seq<Net>) {
    |states| > 0 && Start(states[0])
    && forall i :: 0 <= i < |states| - 1 ==> Next(states[i], states[i + 1])
  }

  // ---------------------------------------------------------------- invariant

  function Packs(o: seq<OutPack>): (ps: seq<Packet>)
    ensures |ps| == |o|
    ensures forall n :: 0 <= n < |o| ==> ps[n] == o[n].pack
  {
    seq(|o|, n requires 0 <= n < |o| => o[n].pack)
  }

  ghost predicate TrueData(o: seq<OutPack>, net: set<Datagram>) {
    forall d :: d in net && d.Data? ==> d.sn < |o| && d.pack == o[d.sn].pack
  }

  ghost predicate TrueAcks(r: Rx, net: set<Datagram>)
    requires Ring(r)
  {
    forall d :: d in net && AckIn(d).Some? ==> Truthful(r, AckIn(d).value)
  }

  ghost predicate TrueHeads(r: Rx, o: seq<OutPack>)
    requires Ring(r)
  {
    forall n :: 0 <= n < |o| && o[n].ack.Some? ==> Truthful(r, o[n].ack.value)
  }

  /** Data flows from `t` to `r` in `data`; acknowledgements come back in `acks` and in the
      headers `heads` of packets going the other way. */
  ghost predicate Flow(t: Tx, r: Rx, data: set<Datagram>, acks: set<Datagram>, heads: seq<OutPack>) {
    && TxInv(t) && RxInv(r)
    && Follows(r, Packs(t.out)) && Awaiting(r)
    && t.rpos <= r.pos
    && TrueData(t.out, data)
    && TrueAcks(r, acks) && TrueHeads(r, heads) && Truthful(r, r.ack)
  }

  ghost predicate Inv(s: Net) {
    && Flow(s.x.tx, s.y.rx, s.xy, s.yx, s.y.tx.out)
    && Flow(s.y.tx, s.x.rx, s.yx, s.xy, s.x.tx.out)
  }

  lemma MirrorInv(s: Net)
    requires Inv(s)
    ensures Inv(Mirror(s)) && Mirror(Mirror(s)) == s
  {
    hide Flow;
  }

  lemma MirrorNext(s: Net, z: Net)
    requires Next(s, z)
    ensures Next(Mirror(s), Mirror(z))
  {
    hide StepX;
    assert Mirror(Mirror(s)) == s && Mirror(Mirror(z)) == z;
    if step :| StepX(s, z, step) {
      assert StepX(Mirror(Mirror(s)), Mirror(Mirror(z)), step);
    }
  }

  lemma StartInv(s: Net)
    requires Start(s)
    ensures Inv(s)
  {
    FreshFlow(s.x.tx, s.y.rx);
    FreshFlow(s.y.tx, s.x.rx);
  }

  lemma FreshFlow(t: Tx, r: Rx)
    requires t == Fresh && IsFresh(r)
    ensures Flow(t, r, {}, {}, [])
  {
    hide TxInv;
    FreshInv();
    assert Packs(t.out) == [];
  }

  lemma InvReady(t: Tx)
    requires TxInv(t)
    ensures Ready(t)
  {
    hide FramesAt, CountsOk, Within;
    FramesBounded(t);
  }

  // ---------------------------------------------------------------- the sender's side of a flow

  /** How a flow survives a change of its sender. */
  lemma FlowOfTx(t: Tx, t': Tx, r: Rx, data: set<Datagram>, more: set<Datagram>, acks: set<Datagram>,
                 heads: seq<OutPack>)
    requires Flow(t, r, data, acks, heads) && TxInv(t')
    requires t'.rpos <= r.pos
    requires |t.out| <= |t'.out| && forall n :: 0 <= n < |t.out| ==> t'.out[n].pack == t.out[n].pack
    requires TrueData(t'.out, more)
    ensures Flow(t', r, data + more, acks, heads)
  {
    hide TxInv, RxInv, Held, Truthful;
    FollowsLonger(r, Packs(t.out), Packs(t'.out));
  }

  lemma FollowsLonger(r: Rx, S: seq<Packet>, S': seq<Packet>)
    requires Follows(r, S) && |S| <= |S'| && forall n :: 0 <= n < |S| ==> S'[n] == S[n]
    ensures Follows(r, S')
  {
    assert S'[..r.pos] == S[..r.pos];
  }

  /** A genuine acknowledgement moves rpos exactly to its position or not at all. */
  lemma AdvanceExact(t: Tx, r: Rx, a: Ack)
    requires TxInv(t) && Follows(r, Packs(t.out)) && t.rpos <= r.pos && Truthful(r, a)
    requires NotStale(t.rpos, t.spos, a.pos)
    ensures t.rpos + Advance(t, a) == if t.rpos <= a.pos <= t.spos then a.pos else t.rpos
  {
    hide FramesAt, CountsOk, Within, PacksOk, RxInv;
    assert Windows(t);
    WindowIff(t.rpos, t.spos, a.pos);
  }

  /** When its serial is not stale either, it is admitted exactly when that serial is in the
      window, and the slot it marks is that of a packet the receiver has. */
  lemma AckIsExact(t: Tx, r: Rx, a: Ack)
    requires TxInv(t) && Follows(r, Packs(t.out)) && t.rpos <= r.pos && Truthful(r, a)
    requires NotStale(t.rpos, t.spos, a.sn)
    ensures Admits(t, a) <==> t.rpos < t.spos && t.rpos <= a.sn <= t.spos
    ensures Admits(t, a) && U16(a.sn) != U16(a.pos) ==>
              Occupant(|t.out|, a.sn) == a.sn < |t.out| && Held(r, a.sn)
  {
    hide FramesAt, CountsOk, Within, PacksOk, RxInv;
    assert Windows(t);
    var S := Packs(t.out);
    if a.pos < a.sn && r.pos <= a.sn {
      SerialAtUnique(r.pos, a.sn);
      assert a.sn < |S|;
    }
    assert a.sn <= |t.out| && a.pos <= |t.out|;
    WindowIff(t.rpos, t.spos, a.sn);
    assert Gap(t.spos, t.rpos) == t.spos - t.rpos;
    if Admits(t, a) && U16(a.sn) != U16(a.pos) {
      assert a.sn < |t.out|;
      OccupantExact(|t.out|, a.sn);
    }
  }

  lemma OccupantExact(w: nat, sn: nat)
    requires w - RANGE <= sn < w
    ensures Occupant(w, sn) == sn
  {
  }

  /** An acknowledgement in the network moves the sender's rpos exactly to its pos or not at
      all, and never past what the receiver has. */
  lemma HearKeepsFlow(e: Endpoint, r: Rx, a: Ack, touched: set<nat>, data: set<Datagram>,
                      acks: set<Datagram>, heads: seq<OutPack>)
    requires Flow(e.tx, r, data, acks, heads) && Truthful(r, a) && Ready(e.tx)
    requires NotStale(e.tx.rpos, e.tx.spos, a.pos)
    ensures var t' := Hear(e, a, touched).tx;
            && Flow(t', r, data, acks, heads)
            && |t'.out| == |e.tx.out|
            && t'.rpos in {e.tx.rpos, a.pos}
            && (forall n :: 0 <= n < |t'.out| ==>
                  t'.out[n].ack == e.tx.out[n].ack || t'.out[n].ack == Renew(e.tx.out[n].ack, e.rx.pos))
            && (forall n :: 0 <= n < |t'.out| ==> t'.out[n].pack == e.tx.out[n].pack)
  {
    hide TxInv, RxInv, Follows, Acked, Occupant, Admits, Advance, Held, Truthful, Hurries, AckTo;
    var t := e.tx;
    AckedFlow(t, r, a);
    var u := Acked(t, a);
    var t' := Hear(e, a, touched).tx;
    if Hurries(t, a) { RefreshInv(u, touched, e.rx.pos); }
    assert t'.rpos == u.rpos;
    FlowOfTx(t, t', r, data, {}, acks, heads);
    assert data + {} == data;
  }

  lemma RefreshInv(t: Tx, touched: set<nat>, pos: nat)
    requires TxInv(t)
    ensures TxInv(Refresh(t, touched, pos))
  {
    hide FramesAt, CountsOk, Within;
    RelabelInv(t, Refresh(t, touched, pos).out, t.spos);
  }

  lemma AckedFlow(t: Tx, r: Rx, a: Ack)
    requires TxInv(t) && Follows(r, Packs(t.out)) && t.rpos <= r.pos && Truthful(r, a)
    requires NotStale(t.rpos, t.spos, a.pos)
    ensures Linked(t)
    ensures var u := Acked(t, a);
            && TxInv(u) && SamePacks(t.out, u.out) && u.spos == t.spos
            && u.rpos in {t.rpos, a.pos} && u.rpos <= r.pos
            && (forall n :: 0 <= n < |u.out| ==> u.out[n].ack == t.out[n].ack)
  {
    hide TxInv, RxInv, Acked, Occupant, Admits, Advance, Held, AckTo;
    AdvanceExact(t, r, a);
    AckedInv(t, a);
  }

  // ---------------------------------------------------------------- the receiver's side of a flow

  /** How a flow survives a change of its receiver and of the headers that answer it. */
  lemma FlowOfRx(t: Tx, r: Rx, r': Rx, data: set<Datagram>, acks: set<Datagram>, more: set<Datagram>,
                 heads: seq<OutPack>, heads': seq<OutPack>)
    requires Flow(t, r, data, acks, heads)
    requires RxInv(r') && Follows(r', Packs(t.out)) && Awaiting(r') && r.pos <= r'.pos
    requires forall n :: Held(r, n) ==> Held(r', n)
    requires Truthful(r', r'.ack) && TrueHeads(r', heads') && TrueAcks(r', more)
    ensures Flow(t, r', data, acks + more, heads')
  {
    hide TxInv, FeedAll, Held, Follows;
    forall d | d in acks && AckIn(d).Some? ensures Truthful(r', AckIn(d).value) {
      TruthfulStays(r, r', AckIn(d).value);
    }
  }

  /** The sender serialised, sent or repeated packets; headers carry the prepared
      acknowledgement, what they carried before, or that renewed. */
  ghost predicate Evolves(t: Tx, t': Tx, r: Rx) {
    && |t.out| <= |t'.out| && t'.rpos == t.rpos
    && (forall n :: 0 <= n < |t.out| ==> t'.out[n].pack == t.out[n].pack)
    && (forall n :: 0 <= n < |t'.out| && !t'.out[n].waiting ==> n < |t.out| && !t.out[n].waiting)
    && (forall n :: 0 <= n < |t'.out| && t'.out[n].ack.Some? ==>
          || t'.out[n].ack.value in {r.ack, Ack(r.ack.sn, r.pos)}
          || (&& n < |t.out| && t.out[n].ack.Some?
              && t'.out[n].ack.value in {t.out[n].ack.value, Ack(t.out[n].ack.value.sn, r.pos)}))
  }

  /** Data datagrams repeat the packets and headers of the ring; a bare one carries the prepared
      acknowledgement. */
  ghost predicate Genuine(t: Tx, r: Rx, more: set<Datagram>) {
    forall d :: d in more ==>
      match d
      case Data(n, p, c) => n < |t.out| && p == t.out[n].pack && c == t.out[n].ack
      case Bare(a) => a == r.ack
  }

  lemma HeadsRenewed(r: Rx, o: seq<OutPack>, t: Tx, t': Tx)
    requires Ring(r) && o == t.out && TrueHeads(r, o) && Truthful(r, r.ack) && Evolves(t, t', r)
    ensures TrueHeads(r, t'.out)
  {
    hide Held;
  }

  lemma GenuineAcks(t: Tx, r: Rx, more: set<Datagram>)
    requires Ring(r) && Genuine(t, r, more) && TrueHeads(r, t.out) && Truthful(r, r.ack)
    ensures TrueAcks(r, more)
  {
    hide Truthful;
  }

  /** Any sending step of x keeps both flows. */
  lemma EvolveKeepsInv(s: Net, x': Endpoint, more: set<Datagram>)
    requires Inv(s) && TxInv(x'.tx) && Evolves(s.x.tx, x'.tx, s.x.rx)
    requires x'.rx == s.x.rx.(pending := x'.rx.pending)
    requires Genuine(x'.tx, x'.rx, more)
    ensures Inv(s.(x := x', xy := s.xy + more))
  {
    hide TxInv, FeedAll, Held, Truthful;
    FlowOfTx(s.x.tx, x'.tx, s.y.rx, s.xy, more, s.yx, s.y.tx.out);
    HeadsRenewed(s.x.rx, s.x.tx.out, s.x.tx, x'.tx);
    GenuineAcks(x'.tx, s.x.rx, more);
    PendingIrrelevant(s.x.rx, x'.rx, Packs(s.y.tx.out), x'.tx.out, more);
    FlowOfRx(s.y.tx, s.x.rx, x'.rx, s.yx, s.xy, more, s.x.tx.out, x'.tx.out);
  }

  lemma PendingIrrelevant(r: Rx, r': Rx, S: seq<Packet>, heads: seq<OutPack>, more: set<Datagram>)
    requires RxInv(r) && Follows(r, S) && Awaiting(r) && r' == r.(pending := r'.pending)
    requires TrueHeads(r, heads) && TrueAcks(r, more) && Truthful(r, r.ack)
    ensures RxInv(r') && Follows(r', S) && Awaiting(r') && Truthful(r', r'.ack)
    ensures TrueHeads(r', heads) && TrueAcks(r', more)
    ensures forall n :: Held(r, n) ==> Held(r', n)
  {
    hide FeedAll;
  }

  // ---------------------------------------------------------------- steps

  lemma SubmitKeepsInv(s: Net, m: Message)
    requires Inv(s)
    ensures Inv(s.(x := s.x.(tx := Queue(s.x.tx, m))))
  {
    hide TxInv, Flow;
    assert TxInv(s.x.tx) by { FlowParts(s); }
    QueueInv(s.x.tx, m);
    EvolveKeepsInv(s, s.x.(tx := Queue(s.x.tx, m)), {});
    assert s.xy + {} == s.xy;
  }

  lemma FlowParts(s: Net)
    requires Inv(s)
    ensures TxInv(s.x.tx) && RxInv(s.x.rx) && Ready(s.x.tx) && Truthful(s.x.rx, s.x.rx.ack)
  {
    hide TxInv, FeedAll, Follows;
    InvReady(s.x.tx);
  }

  lemma SerialiseEvolves(t: Tx, r: Rx)
    requires TxInv(t) && Ready(t)
    ensures TxInv(Serialise(t)) && Ready(Serialise(t)) && Evolves(t, Serialise(t), r)
    ensures t.out <= Serialise(t).out && Serialise(t).spos == t.spos
  {
    hide TxInv;
    SerialiseInv(t);
    InvReady(Serialise(t));
  }

  lemma EvolvesTrans(t: Tx, u: Tx, v: Tx, r: Rx)
    requires Evolves(t, u, r) && Evolves(u, v, r)
    ensures Evolves(t, v, r)
  {
  }

  /** Putting the prepared acknowledgement into a header, or renewing one, on a live packet. */
  lemma HeaderEvolves(t: Tx, n: nat, o: OutPack, s: nat, r: Rx)
    requires TxInv(t) && t.rpos <= n < |t.out| && t.rpos <= s <= |t.out|
    requires o.pack == t.out[n].pack && o.msg == t.out[n].msg && (t.out[n].waiting ==> o.waiting)
    requires o.ack in {Some(r.ack), t.out[n].ack, Renew(t.out[n].ack, r.pos)}
    ensures var t' := t.(out := t.out[n := o], spos := s);
            TxInv(t') && Ready(t') && Evolves(t, t', r)
  {
    hide FramesAt, CountsOk, Within;
    var t' := t.(out := t.out[n := o], spos := s);
    RelabelInv(t, t'.out, s);
    InvReady(t');
  }

  lemma LoadedEvolves(e: Endpoint)
    requires TxInv(e.tx) && Ready(e.tx)
    ensures TxInv(Loaded(e)) && Ready(Loaded(e)) && Evolves(e.tx, Loaded(e), e.rx)
  {
    hide TxInv, Serialise, Evolves;
    assert Evolves(e.tx, e.tx, e.rx) by { EvolvesRefl(e.tx, e.rx); }
    SerialiseEvolves(e.tx, e.rx);
    var t := if Gap(|e.tx.out|, e.tx.spos) == 0 then Serialise(e.tx) else e.tx;
    if Gap(|t.out|, t.spos) > 0 && e.rx.pending {
      HeaderEvolves(t, t.spos, t.out[t.spos].(ack := Some(e.rx.ack)), t.spos, e.rx);
      EvolvesTrans(e.tx, t, Loaded(e), e.rx);
    }
  }

  lemma LaunchedReady(t: Tx)
    requires Ready(t) && t.spos < |t.out|
    ensures Ready(Launched(t))
  {
  }

  lemma EvolvesRefl(t: Tx, r: Rx)
    ensures Evolves(t, t, r)
  {
  }

  lemma SendPackEvolves(e: Endpoint, ok: bool)
    requires TxInv(e.tx) && Ready(e.tx)
    ensures var e' := SendPack(e, ok);
            && TxInv(e'.tx) && Evolves(e.tx, e'.tx, e.rx) && e'.rx == e.rx.(pending := e'.rx.pending)
            && Genuine(e'.tx, e'.rx, Sent(SentPack(e, ok)))
  {
    hide TxInv, Serialise, Evolves, Loaded;
    LoadedEvolves(e);
    var t := Loaded(e);
    if Gap(|t.out|, t.spos) > 0 && ok {
      var o := t.out[t.spos].(waiting := true);
      var u := t.(out := t.out[t.spos := o], spos := t.spos + 1);
      HeaderEvolves(t, t.spos, o, t.spos + 1, e.rx);
      EvolvesTrans(e.tx, t, u, e.rx);
      SerialiseEvolves(u, e.rx);
      EvolvesTrans(e.tx, u, Serialise(u), e.rx);
    }
  }

  lemma ResendEvolves(e: Endpoint, ok: bool)
    requires TxInv(e.tx) && Ready(e.tx)
    ensures var e' := Resend(e);
            && TxInv(e'.tx) && Evolves(e.tx, e'.tx, e.rx) && e'.rx == e.rx
            && Genuine(e'.tx, e'.rx, Sent(Resent(e, ok)))
  {
    hide TxInv, Evolves;
    EvolvesRefl(e.tx, e.rx);
    var t := e.tx;
    if Gap(t.spos, t.rpos) > 0 {
      HeaderEvolves(t, t.rpos, t.out[t.rpos].(ack := Renew(t.out[t.rpos].ack, e.rx.pos), waiting := true),
                    t.spos, e.rx);
    }
  }

  /** Fast retransmission only rewrites headers that it may rewrite. */
  lemma HurriedGenuine(e: Endpoint, again: Option<nat>)
    ensures Genuine(e.tx, e.rx, Sent(Hurried(e, again)))
  {
  }

  lemma HearHeads(e: Endpoint, t': Tx)
    requires Ring(e.rx) && TrueHeads(e.rx, e.tx.out) && |t'.out| == |e.tx.out|
    requires forall n :: 0 <= n < |t'.out| ==>
               t'.out[n].ack == e.tx.out[n].ack || t'.out[n].ack == Renew(e.tx.out[n].ack, e.rx.pos)
    ensures TrueHeads(e.rx, t'.out)
  {
    hide Held;
  }

  lemma HeadsStay(r: Rx, r': Rx, o: seq<OutPack>)
    requires Ring(r) && Ring(r') && r.pos <= r'.pos && TrueHeads(r, o)
    requires forall n :: Held(r, n) ==> Held(r', n)
    ensures TrueHeads(r', o)
  {
    hide Held;
  }

  /** The acknowledgement part of a delivery keeps the flow x -> y. */
  lemma DeliverAck(s: Net, d: Datagram, touched: set<nat>)
    requires Inv(s) && d in s.yx && Timely(s.x, d)
    ensures Ready(s.x.tx) && Ring(s.x.rx)
    ensures var x' := Receive(s.x, d, touched);
            && Flow(x'.tx, s.y.rx, s.xy, s.yx, s.y.tx.out)
            && TrueHeads(s.x.rx, x'.tx.out)
  {
    hide TxInv, FeedAll, Follows, Hear, Held, Take;
    InvReady(s.x.tx);
    if Listens(s.x, d) {
      var a := AckIn(d).value;
      HearKeepsFlow(s.x, s.y.rx, a, touched, s.xy, s.yx, s.y.tx.out);
      HearHeads(s.x, Hear(s.x, a, touched).tx);
    }
  }

  /** The data part of a delivery keeps the receiver of the flow y -> x on its stream. */
  lemma DeliverData(t: Tx, r: Rx, d: Datagram, data: set<Datagram>, acks: set<Datagram>, heads: seq<OutPack>)
    requires Flow(t, r, data, acks, heads) && d in data
    requires d.Data? ==> r.pos - d.sn <= MAX_DATA_LAG
    ensures var r' := if d.Data? then Take(r, d.sn, d.pack) else r;
            && RxInv(r') && Follows(r', Packs(t.out)) && Awaiting(r') && r.pos <= r'.pos
            && (forall n :: Held(r, n) ==> Held(r', n)) && Truthful(r', r'.ack)
  {
    hide FramesAt, PacksOk, CountsOk, Within, FeedAll, Take, Follows, Held;
    assert Windows(t);
    if d.Data? { TakeFollows(r, Packs(t.out), d.sn, d.pack); }
  }

  lemma ReceiveRx(e: Endpoint, d: Datagram, touched: set<nat>)
    requires Ready(e.tx) && Ring(e.rx)
    ensures Receive(e, d, touched).rx == if d.Data? then Take(e.rx, d.sn, d.pack) else e.rx
  {
    hide Take, Acked, Refresh;
  }

  lemma DeliverKeepsInv(s: Net, s': Net, d: Datagram, touched: set<nat>, again: Option<nat>)
    requires Inv(s) && StepX(s, s', Deliver(d, touched, again))
    ensures Inv(s')
  {
    hide TxInv, RxInv, Follows, Take, Receive, Held, Truthful, Listens, MayHurry, Hurried;
    DeliverAck(s, d, touched);
    ReceiveRx(s.x, d, touched);
    var x' := s'.x;
    var more := Sent(Hurried(x', again));
    HurriedGenuine(x', again);
    assert Flow(x'.tx, s.y.rx, s.xy + more, s.yx, s.y.tx.out) by {
      FlowOfTx(x'.tx, x'.tx, s.y.rx, s.xy, more, s.yx, s.y.tx.out);
    }
    DeliverData(s.y.tx, s.x.rx, d, s.yx, s.xy, s.x.tx.out);
    HeadsStay(s.x.rx, x'.rx, x'.tx.out);
    GenuineAcks(x'.tx, x'.rx, more);
    FlowOfRx(s.y.tx, s.x.rx, x'.rx, s.yx, s.xy, more, s.x.tx.out, x'.tx.out);
  }

  lemma StepKeepsInv(s: Net, s': Net, step: Step)
    requires Inv(s) && StepX(s, s', step)
    ensures Inv(s')
  {
    hide TxInv, Flow, SendPack, SentPack, Resend, Resent, Receive, Evolves, Genuine, Queue;
    FlowParts(s);
    match step
    case Submit(m) => SubmitKeepsInv(s, m);
    case Transmit(ok) =>
      SendPackEvolves(s.x, ok);
      EvolveKeepsInv(s, s'.x, Sent(SentPack(s.x, ok)));
    case Timeout(ok) =>
      ResendEvolves(s.x, ok);
      EvolveKeepsInv(s, s'.x, Sent(Resent(s.x, ok)));
    case Reply(ok) =>
      EvolvesRefl(s.x.tx, s.x.rx);
      var more := if ok then {Bare(s.x.rx.ack)} else {};
      BareGenuine(s.x.tx, s'.x.rx, more);
      EvolveKeepsInv(s, s'.x, more);
    case Deliver(d, touched, again) => DeliverKeepsInv(s, s', d, touched, again);
  }

  lemma BareGenuine(t: Tx, r: Rx, more: set<Datagram>)
    requires more <= {Bare(r.ack)}
    ensures Genuine(t, r, more)
  {
  }

  lemma NextKeepsInv(s: Net, s': Net)
    requires Inv(s) && Next(s, s')
    ensures Inv(s')
  {
    hide Flow, StepX;
    if step :| StepX(s, s', step) {
      StepKeepsInv(s, s', step);
    } else {
      var step :| StepX(Mirror(s), Mirror(s'), step);
      StepKeepsInv(Mirror(s), Mirror(s'), step);
    }
  }

  lemma InWindowOf(s: Net, d: Datagram)
    requires Inv(s) && d in s.yx && d.Data?
    ensures d.sn < s.x.rx.pos + RANGE
  {
    hide FeedAll, Truthful, FramesAt, PacksOk, CountsOk, Within;
  }

  /** What goes out, when the socket takes it: the next packet of the window that was not sent, with
      the prepared acknowledgement if one is pending, which is then cleared; and on a timeout the
      oldest packet that is not acknowledged, whose acknowledgement, if it carries one, has the
      receiver's position of now. */
  lemma WhatGoesOut(e: Endpoint, ok: bool)
    requires TxInv(e.tx) && Ready(e.tx)
    ensures var d := SentPack(e, ok);
      && (d.Some? ==>
            && d.value.Data? && d.value.sn == e.tx.spos < |SendPack(e, ok).tx.out|
            && d.value.pack == SendPack(e, ok).tx.out[e.tx.spos].pack
            && (e.rx.pending ==> d.value.carried == Some(e.rx.ack))
            && (!e.rx.pending && e.tx.spos < |e.tx.out| ==> d.value.carried == e.tx.out[e.tx.spos].ack)
            && (!e.rx.pending && e.tx.spos == |e.tx.out| ==> d.value.carried.None?))
      && SendPack(e, ok).rx.pending == (e.rx.pending && d.None?)
      && SendPack(e, ok).tx.spos == e.tx.spos + (if d.Some? then 1 else 0)
    ensures var d := Resent(e, ok);
      && (d.Some? <==> ok && e.tx.rpos < e.tx.spos)
      && (d.Some? ==> d.value.Data? && d.value.sn == e.tx.rpos && d.value.pack == e.tx.out[e.tx.rpos].pack)
      && (d.Some? ==> d.value.carried.Some? == e.tx.out[e.tx.rpos].ack.Some?)
      && (d.Some? && d.value.carried.Some? ==>
            d.value.carried.value == Ack(e.tx.out[e.tx.rpos].ack.value.sn, e.rx.pos))
  {
    hide FramesAt, PacksOk, CountsOk, Within;
    assert e.tx.rpos <= e.tx.spos <= |e.tx.out|;
  }

  /** What an acknowledgement does to the packets that are left: the one it acknowledges by its serial
      no longer looks lost, and nothing else changes. */
  lemma AckedFlags(t: Tx, r: Rx, a: Ack, n: nat)
    requires TxInv(t) && Follows(r, Packs(t.out)) && t.rpos <= r.pos && Truthful(r, a)
    requires NotStale(t.rpos, t.spos, a.sn)
    ensures Linked(t) && |Acked(t, a).out| == |t.out|
    ensures Acked(t, a).rpos <= n < |t.out| ==>
      Acked(t, a).out[n] == t.out[n].(waiting := t.out[n].waiting
          && !(Admits(t, a) && U16(a.sn) != U16(a.pos) && n == a.sn))
  {
    hide FramesAt, PacksOk, CountsOk, Within, CutAll, RxInv, Held, Truthful, Follows;
    AckIsExact(t, r, a);
    AckedInv(t, a);
    AdvanceBounded(t, a);
    AckToInv(t, Advance(t, a));
  }

  /** The condition for fast retransmission, on unbounded serials: the acknowledged serial is another
      than the position and more than three ahead of the oldest packet that is left. */
  lemma HurriesExactly(t: Tx, r: Rx, a: Ack)
    requires TxInv(t) && Follows(r, Packs(t.out)) && t.rpos <= r.pos && Truthful(r, a)
    requires NotStale(t.rpos, t.spos, a.pos) && NotStale(t.rpos, t.spos, a.sn) && t.rpos < t.spos
    requires t.rpos <= a.pos <= a.sn
    ensures Hurries(t, a) <==> a.sn <= t.spos && a.pos + 3 < a.sn
  {
    hide FramesAt, PacksOk, CountsOk, Within, CutAll, RxInv, Held, Truthful, Follows;
    AckIsExact(t, r, a);
  }

  /** What a packet carries is heard exactly on its first arrival, early ones included: with the
      packet not held before and held afterwards. */
  lemma HeardOnFirstArrival(s: Net, d: Datagram, touched: set<nat>)
    requires Inv(s) && Ready(s.x.tx) && d in s.yx && d.Data? && Timely(s.x, d)
    ensures Listens(s.x, d) <==> d.carried.Some? && !Held(s.x.rx, d.sn)
    ensures Held(Receive(s.x, d, touched).rx, d.sn)
  {
    hide TxInv, RxInv, Acked, Refresh, Take, Accepts, Held, Awaiting, Follows, TrueAcks, TrueHeads, Truthful;
    InWindowOf(s, d);
    FollowsBasics(s.x.rx, Packs(s.y.tx.out));
    AcceptsIff(s.x.rx, d.sn);
    TakeAnswers(s.x.rx, d.sn, d.pack);
    ReceiveRx(s.x, d, touched);
  }

  /** The invariant holds in every state of every run. */
  lemma {:induction false} RunKeepsInv(states: seq<Net>, i: nat)
    requires Run(states) && i < |states|
    ensures Inv(states[i])
    decreases i
  {
    hide Inv, Next;
    if i == 0 {
      StartInv(states[0]);
    } else {
      RunKeepsInv(states, i - 1);
      NextKeepsInv(states[i - 1], states[i]);
    }
  }
}
