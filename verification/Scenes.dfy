/** Building blocks of particular runs: an empty message is sent, arrives and is answered. */
module Scenes {
  import opened Common
  import opened Serial
  import opened Segmentation
  import opened Sender
  import opened Receiver
  import opened Protocol
  import opened Progress

  /** The empty message. */
  const Note: Message := Message(Msg, [])

  /** The one packet of it. */
  const NotePack: Packet := Packet(Msg, 1, [])

  predicate AllEmpty(r: Rx) {
    Ring(r) && forall i :: 0 <= i < RANGE ==> r.slots[i].None?
  }

  const FreshRx: Rx := Rx(seq(RANGE, _ => None), 0, Ack(0, 0), false, [], Idle, [])
  const First: Net := Net(Endpoint(Fresh, FreshRx), Endpoint(Fresh, FreshRx), {}, {})

  lemma FirstStarts()
    ensures Start(First) && Inv(First) && AllEmpty(FreshRx)
  {
    StartInv(First);
  }

  /** A sender that has launched everything and has room for another message. */
  predicate Keen(t: Tx) {
    && t.rpos <= t.spos == |t.out| < t.rpos + RANGE
    && t.mspos == |t.frames| < t.mrpos + MSG_RANGE && t.mrpos <= t.mspos
  }

  /** The sender after another empty message was queued, serialised and launched. */
  predicate Pushed(t: Tx, t': Tx, head: Option<Ack>) {
    && t'.out == t.out + [OutPack(NotePack, |t.frames|, head, true)]
    && t'.spos == t.spos + 1 && t'.rpos == t.rpos
    && |t'.frames| == t'.mspos == t.mspos + 1 && t'.mrpos == t.mrpos
  }

  lemma QueueNote(t: Tx)
    requires Keen(t)
    ensures Queue(t, Note) == t.(frames := t.frames + [Frame(Note, 0, 1, 0)])
  {
    assert Gap(MSG_RANGE + t.mrpos, |t.frames|) == MSG_RANGE + t.mrpos - |t.frames|;
    assert Count(Note) == 1;
  }

  /** Serialising the empty message that waits. */
  lemma SerialiseNote(t: Tx)
    requires Windows(t) && (forall i :: 0 <= i < |t.frames| ==> t.frames[i].spos <= |t.frames[i].msg.body|)
    requires |t.out| < t.rpos + RANGE && t.mspos < |t.frames| && t.frames[t.mspos] == Frame(Note, 0, 1, 0)
    ensures Serialise(t) == t.(
              frames := t.frames[t.mspos := Frame(Note, 0, 0, 0)],
              out := t.out + [OutPack(NotePack, t.mspos, None, true)], mspos := t.mspos + 1)
  {
    assert Gap(RANGE + t.rpos, |t.out|) == RANGE + t.rpos - |t.out|;
    assert Gap(|t.frames|, t.mspos) == |t.frames| - t.mspos;
  }

  lemma SerialiseNothing(t: Tx)
    requires Windows(t) && (forall i :: 0 <= i < |t.frames| ==> t.frames[i].spos <= |t.frames[i].msg.body|)
    requires t.mspos == |t.frames|
    ensures Serialise(t) == t
  {
  }

  // ---------------------------------------------------------------- sending

  /** Queueing the empty message and launching it. */
  lemma SendNote(e: Endpoint)
    requires TxInv(e.tx) && Ready(e.tx) && Keen(e.tx)
    ensures var u := e.(tx := Queue(e.tx, Note));
      && Ready(u.tx)
      && Pushed(e.tx, SendPack(u, true).tx, if e.rx.pending then Some(e.rx.ack) else None)
      && SendPack(u, true).rx == e.rx.(pending := false)
      && SentPack(u, true) == Some(Outgoing(SendPack(u, true).tx, |e.tx.out|))
  {
    hide TxInv, Serialise, Queue, Msgs;
    QueueInv(e.tx, Note);
    var u := e.(tx := Queue(e.tx, Note));
    InvReady(u.tx);
    QueueNote(e.tx);
    SerialiseNote(u.tx);
    SerialiseInv(u.tx);
    assert Gap(|u.tx.out|, u.tx.spos) == 0;
    LoadedEvolves(u);
    var t := Loaded(u);
    assert Gap(|t.out|, t.spos) == 1;
    SendPackEvolves(u, true);
    LaunchedReady(t);
    SerialiseNothing(Launched(t));
  }

  lemma {:induction false} Push(s: Net) returns (p: seq<Net>, z: Net, d: Datagram)
    requires Inv(s) && Keen(s.x.tx)
    ensures Path(p, s, z) && Inv(z) && z.y == s.y && z.yx == s.yx && s.xy <= z.xy
    ensures Pushed(s.x.tx, z.x.tx, if s.x.rx.pending then Some(s.x.rx.ack) else None)
    ensures z.x.rx == s.x.rx.(pending := false)
    ensures d in z.xy && d == Data(|s.x.tx.out|, NotePack, if s.x.rx.pending then Some(s.x.rx.ack) else None)
  {
    hide Inv, Flow, TxInv, RxInv, Truthful, Queue, SendPack, SentPack, Keen;
    Progress.Rings(s);
    FlowParts(s);
    SendNote(s.x);
    var m := s.(x := s.x.(tx := Queue(s.x.tx, Note)));
    assert StepX(s, m, Submit(Note));
    z := m.(x := SendPack(m.x, true), xy := m.xy + Sent(SentPack(m.x, true)));
    assert StepX(m, z, Transmit(true));
    NextKeepsInv(s, m);
    NextKeepsInv(m, z);
    PathStep(s, m);
    PathStep(m, z);
    p := [s, m] + [m, z][1..];
    PathJoin([s, m], [m, z], s, m, z);
    d := Outgoing(z.x.tx, |s.x.tx.out|);
  }

  /** Two empty messages are queued and one is launched: the other one is serialised by the same
      call, and waits. */
  predicate PushedTwo(t: Tx, t': Tx) {
    && t'.out == t.out + [OutPack(NotePack, |t.frames|, None, true), OutPack(NotePack, |t.frames| + 1, None, true)]
    && t'.spos == t.spos + 1 && t'.rpos == t.rpos
  }

  lemma SendOneOfTwo(e: Endpoint)
    requires TxInv(e.tx) && Ready(e.tx) && Keen(e.tx) && !e.rx.pending
    requires |e.tx.out| + 1 < e.tx.rpos + RANGE && |e.tx.frames| + 1 < e.tx.mrpos + MSG_RANGE
    ensures var u := e.(tx := Queue(Queue(e.tx, Note), Note));
      && Ready(u.tx) && PushedTwo(e.tx, SendPack(u, true).tx)
      && SendPack(u, true).rx == e.rx
      && SentPack(u, true) == Some(Data(|e.tx.out|, NotePack, None))
  {
    hide TxInv, Serialise, Queue, Msgs;
    QueueInv(e.tx, Note);
    QueueNote(e.tx);
    var m := Queue(e.tx, Note);
    QueueInv(m, Note);
    QueueAgain(m);
    var u := e.(tx := Queue(m, Note));
    InvReady(u.tx);
    SerialiseNote(u.tx);
    SerialiseInv(u.tx);
    assert Gap(|u.tx.out|, u.tx.spos) == 0;
    LoadedEvolves(u);
    var t := Loaded(u);
    assert Gap(|t.out|, t.spos) == 1;
    LaunchedReady(t);
    SerialiseNote(Launched(t));
  }

  lemma QueueAgain(t: Tx)
    requires t.mrpos <= |t.frames| < t.mrpos + MSG_RANGE
    ensures Queue(t, Note) == t.(frames := t.frames + [Frame(Note, 0, 1, 0)])
  {
    assert Gap(MSG_RANGE + t.mrpos, |t.frames|) == MSG_RANGE + t.mrpos - |t.frames|;
    assert Count(Note) == 1;
  }

  lemma {:induction false} PushTwo(s: Net) returns (p: seq<Net>, z: Net, d: Datagram)
    requires Inv(s) && Keen(s.x.tx) && !s.x.rx.pending
    requires |s.x.tx.out| + 1 < s.x.tx.rpos + RANGE && |s.x.tx.frames| + 1 < s.x.tx.mrpos + MSG_RANGE
    ensures Path(p, s, z) && Inv(z) && z.y == s.y && z.yx == s.yx && z.x.rx == s.x.rx && PushedTwo(s.x.tx, z.x.tx)
    ensures d in z.xy && d == Data(|s.x.tx.out|, NotePack, None)
  {
    hide Inv, Flow, TxInv, RxInv, Truthful, Queue, SendPack, SentPack, Keen;
    Progress.Rings(s);
    FlowParts(s);
    SendOneOfTwo(s.x);
    var m := s.(x := s.x.(tx := Queue(s.x.tx, Note)));
    assert StepX(s, m, Submit(Note));
    NextKeepsInv(s, m);
    FlowParts(m);
    var n := m.(x := m.x.(tx := Queue(m.x.tx, Note)));
    assert StepX(m, n, Submit(Note));
    NextKeepsInv(m, n);
    z := n.(x := SendPack(n.x, true), xy := n.xy + Sent(SentPack(n.x, true)));
    assert StepX(n, z, Transmit(true));
    NextKeepsInv(n, z);
    p := [s, m, n, z];
    d := Data(|s.x.tx.out|, NotePack, None);
  }

  // ---------------------------------------------------------------- arriving

  /** The awaited packet arrives at a receiver that holds nothing. */
  lemma TakeAwaited(r: Rx, p: Packet)
    requires AllEmpty(r)
    ensures var t := Take(r, r.pos, p);
      AllEmpty(t) && t.pos == r.pos + 1 && t.ack == Ack(t.pos, t.pos) && t.pending
  {
    hide Feed;
    var q := Place(r, r.pos, p);
    var u := DrainOne(q);
    assert AllEmpty(u);
    assert Drain(u, RANGE - 1) == u;
    assert Drain(q, RANGE) == Drain(u, RANGE - 1);
  }

  lemma {:induction false} Land(s: Net, d: Datagram) returns (z: Net)
    requires Inv(s) && d in s.xy && d.Data? && d.sn == s.y.rx.pos && d.carried.None? && AllEmpty(s.y.rx)
    ensures Path([s, z], s, z) && Inv(z) && z == s.(y := s.y.(rx := z.y.rx))
    ensures AllEmpty(z.y.rx) && z.y.rx.pos == s.y.rx.pos + 1 && z.y.rx.ack == Ack(z.y.rx.pos, z.y.rx.pos)
        && z.y.rx.pending
  {
    hide Inv, Flow, TxInv, RxInv, Truthful, Take;
    Progress.Rings(s);
    z := s.(y := Receive(s.y, d, {}));
    assert s.yx + {} == s.yx;
    assert StepX(Mirror(s), Mirror(z), Deliver(d, {}, None));
    NextKeepsInv(s, z);
    PathStep(s, z);
    TakeAwaited(s.y.rx, d.pack);
  }

  // ---------------------------------------------------------------- answering

  lemma {:induction false} AckToSame(t: Tx, k: nat)
    requires t.rpos + k <= |t.out|
    requires forall n :: t.rpos <= n < |t.out| ==> t.out[n].msg < |t.frames|
    ensures var r := AckTo(t, k); r.mspos == t.mspos && |r.frames| == |t.frames| && |r.out| == |t.out|
    decreases k
  {
    if k > 0 { AckToSame(AckOne(t), k - 1); }
  }

  /** With everything acknowledged the message ring is empty. */
  lemma AllDone(t: Tx)
    requires TxInv(t) && t.rpos == |t.out| && t.mspos == |t.frames|
    ensures t.mrpos == t.mspos
  {
    hide FramesAt, PacksOk, CountsOk, CutAll, Base;
    var ms := Msgs(t.frames);
    if t.mrpos < |ms| { WithinUnique(ms, t.mrpos, t.mspos, t.rpos); }
  }

  /** The receiver answers, and the sender hears that everything has arrived. */
  lemma {:induction false} Answer(s: Net) returns (p: seq<Net>, z: Net)
    requires Inv(s) && s.y.rx.ack == Ack(s.x.tx.spos, s.x.tx.spos)
    requires s.x.tx.rpos < s.x.tx.spos == |s.x.tx.out| && s.x.tx.mspos == |s.x.tx.frames|
    ensures Path(p, s, z) && Inv(z) && z.x.rx == s.x.rx && z.y == s.y.(rx := s.y.rx.(pending := false))
    ensures Keen(z.x.tx) && z.x.tx.rpos == z.x.tx.spos == s.x.tx.spos && z.x.tx.mrpos == z.x.tx.mspos
  {
    hide Inv, Flow, TxInv, RxInv, Truthful, AckTo;
    Progress.Rings(s);
    var q := s.x.tx.spos;
    var d := Bare(Ack(q, q));
    var m := s.(y := s.y.(rx := s.y.rx.(pending := false)), yx := s.yx + {d});
    assert StepX(Mirror(s), Mirror(m), Reply(true));
    NextKeepsInv(s, m);
    PathStep(s, m);
    z := m.(x := Receive(m.x, d, {}));
    assert m.xy + {} == m.xy;
    assert StepX(m, z, Deliver(d, {}, None));
    NextKeepsInv(m, z);
    PathStep(m, z);
    p := [s, m] + [m, z][1..];
    PathJoin([s, m], [m, z], s, m, z);
    FlowParts(m);
    FlowParts(z);
    AckedInv(s.x.tx, Ack(q, q));
    WindowIff(s.x.tx.rpos, q, q);
    GapIs(q, s.x.tx.rpos);
    AckToSame(s.x.tx, q - s.x.tx.rpos);
    AllDone(z.x.tx);
  }

  /** A round of the three. */
  lemma {:induction false} Exchange(s: Net) returns (p: seq<Net>, z: Net)
    requires Inv(s) && Keen(s.x.tx) && s.x.tx.rpos == s.x.tx.spos == s.y.rx.pos && AllEmpty(s.y.rx) && !s.x.rx.pending
    ensures Path(p, s, z) && Inv(z) && Keen(z.x.tx) && z.x.tx.rpos == z.x.tx.spos == z.y.rx.pos == s.y.rx.pos + 1
    ensures z.x.rx == s.x.rx && z.y.tx == s.y.tx && AllEmpty(z.y.rx) && !z.y.rx.pending
        && z.x.tx.mrpos == z.x.tx.mspos
  {
    hide Inv, AllEmpty, Path;
    var p1, a, d := Push(s);
    var b := Land(a, d);
    PathJoin(p1, [a, b], s, a, b);
    var p2;
    p2, z := Answer(b);
    PathLength(p2, b, z);
    PathJoin(p1 + [a, b][1..], p2, s, b, z);
    p := p1 + [a, b][1..] + p2[1..];
    SlotsKept(b.y.rx, z.y.rx);
  }

  lemma SlotsKept(r: Rx, t: Rx)
    requires AllEmpty(r) && t.slots == r.slots
    ensures AllEmpty(t)
  {
  }

  lemma {:induction false} Exchanges(s: Net, k: nat) returns (p: seq<Net>, z: Net)
    requires Inv(s) && Keen(s.x.tx) && s.x.tx.rpos == s.x.tx.spos == s.y.rx.pos && AllEmpty(s.y.rx) && !s.x.rx.pending
    requires s.x.tx.mrpos == s.x.tx.mspos
    ensures Path(p, s, z) && Inv(z) && Keen(z.x.tx) && z.x.tx.rpos == z.x.tx.spos == z.y.rx.pos == s.y.rx.pos + k
    ensures z.x.rx == s.x.rx && z.y.tx == s.y.tx && AllEmpty(z.y.rx)
    ensures z.x.tx.mrpos == z.x.tx.mspos
    decreases k
  {
    hide Inv, AllEmpty, Path, Keen;
    if k == 0 {
      PathOne(s);
      p, z := [s], s;
    } else {
      var p1, m := Exchange(s);
      var p2;
      p2, z := Exchanges(m, k - 1);
      PathLength(p2, m, z);
      PathJoin(p1, p2, s, m, z);
      p := p1 + p2[1..];
    }
  }

  /** The header of the oldest packet as it goes out again. */
  lemma {:induction false} Repeat(s: Net) returns (z: Net, d: Datagram)
    requires Inv(s) && s.x.tx.rpos < s.x.tx.spos
    ensures Path([s, z], s, z) && Inv(z) && z.y == s.y && z.yx == s.yx && s.xy <= z.xy && z.x.rx == s.x.rx
    ensures z.x.tx.rpos == s.x.tx.rpos && z.x.tx.spos == s.x.tx.spos
    ensures var o := s.x.tx.out[s.x.tx.rpos]; d in z.xy && d == Data(s.x.tx.rpos, o.pack, Renew(o.ack, s.x.rx.pos))
  {
    hide Inv, Flow, TxInv, RxInv, Truthful;
    Progress.Rings(s);
    z := s.(x := Resend(s.x), xy := s.xy + Sent(Resent(s.x, true)));
    assert StepX(s, z, Timeout(true));
    GapIs(s.x.tx.spos, s.x.tx.rpos);
    d := Outgoing(z.x.tx, s.x.tx.rpos);
    NextKeepsInv(s, z);
    PathStep(s, z);
  }

  /** The common beginning of the scenes: x sends a packet, it arrives at y, and y sends one whose
      header acknowledges it and which is lost. */
  lemma {:induction false} Opening() returns (p: seq<Net>, s: Net)
    ensures Path(p, First, s) && Inv(s)
    ensures s.x.tx.rpos == 0 && s.x.tx.spos == |s.x.tx.out| == 1 && s.x.tx.mspos == |s.x.tx.frames| == 1
        && s.x.tx.mrpos == 0
    ensures s.x.rx == FreshRx && AllEmpty(s.y.rx) && s.y.rx.pos == 1 && s.y.rx.ack == Ack(1, 1) && !s.y.rx.pending
    ensures s.y.tx.rpos == 0 && s.y.tx.spos == |s.y.tx.out| == 1 && s.y.tx.out[0].ack == Some(Ack(1, 1))
    ensures s.y.tx.out[0].pack == NotePack
  {
    hide Inv, Path, AllEmpty, TxInv;
    FirstStarts();
    assert AllEmpty(FreshRx);
    var p1, a, d := Push(First);
    var b := Land(a, d);
    PathJoin(p1, [a, b], First, a, b);
    MirrorInv(b);
    var p2, c, _ := Push(Mirror(b));
    MirrorInv(c);
    var q := MirrorPath(p2, Mirror(b), c);
    s := Mirror(c);
    assert Mirror(Mirror(b)) == b;
    PathJoin(p1 + [a, b][1..], q, First, b, s);
    p := p1 + [a, b][1..] + q[1..];
    SlotsKept(b.y.rx, s.y.rx);
  }
}
