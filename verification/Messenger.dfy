/** The byte account of the whole messenger: what all its channels have queued and not yet got
    acknowledged. */
module Messenger {
  import opened Common
  import opened Serial
  import opened Segmentation
  import opened Sender
  import opened Protocol

  /** msger->len and msger->pos, and the sending halves of the channels opened so far; a channel
      that was cleared is gone. */
  datatype Account = Account(chans: seq<Option<Tx>>, len: int, pos: int)

  const Empty: Account := Account([], 0, 0)

  /** The unacknowledged bytes in the live message rings. */
  function Outstanding(chans: seq<Option<Tx>>): int {
    if chans == [] then 0 else Outstanding(chans[..|chans| - 1]) + OutstandingIn(chans[|chans| - 1])
  }

  function OutstandingIn(c: Option<Tx>): int {
    if c.Some? then Unacked(c.value.frames, c.value.mrpos) else 0
  }

  ghost predicate Balanced(a: Account) {
    && (forall i :: 0 <= i < |a.chans| && a.chans[i].Some? ==> TxInv(a.chans[i].value))
    && a.len - a.pos == Outstanding(a.chans)
  }

  datatype Move =
    | Open
    | Send(i: nat, m: Message)
    | Hear(i: nat, ack: Ack)
    | Carry(i: nat, t: Tx)
    | Clear(i: nat)

  predicate Live(a: Account, i: nat) { i < |a.chans| && a.chans[i].Some? }

  /** What the calls do to the account: xmsger_send counts the bytes it queues, every released
      packet those it carried, and xchannel_clear takes back what is outstanding. All other calls
      leave the counters of their channel alone. */
  ghost predicate Step(a: Account, a': Account, move: Move) {
    match move
    case Open => a' == a.(chans := a.chans + [Some(Fresh)])
    case Send(i, m) =>
      Live(a, i) && var t := a.chans[i].value;
      a' == a.(chans := a.chans[i := Some(Queue(t, m))], len := a.len + if HasRoom(t) then |m.body| else 0)
    case Hear(i, ack) =>
      Live(a, i) && Linked(a.chans[i].value) && var t := a.chans[i].value;
      a' == a.(chans := a.chans[i := Some(Acked(t, ack))], pos := a.pos + Acked(t, ack).rbytes - t.rbytes)
    case Carry(i, t) =>
      && Live(a, i) && TxInv(t) && t.wbytes == a.chans[i].value.wbytes && t.rbytes == a.chans[i].value.rbytes
      && a' == a.(chans := a.chans[i := Some(t)])
    case Clear(i) =>
      Live(a, i) && a' == a.(chans := a.chans[i := None], len := a.len - OutstandingIn(a.chans[i]))
  }

  ghost predicate Next(a: Account, a': Account) { exists move :: Step(a, a', move) }

  ghost predicate Run(states: seq<Account>) {
    |states| > 0 && states[0] == Empty && forall i :: 0 <= i < |states| - 1 ==> Next(states[i], states[i + 1])
  }

  lemma {:induction false} OutstandingUpdate(chans: seq<Option<Tx>>, i: nat, c: Option<Tx>)
    requires i < |chans|
    ensures Outstanding(chans[i := c]) == Outstanding(chans) - OutstandingIn(chans[i]) + OutstandingIn(c)
    decreases |chans|
  {
    hide OutstandingIn;
    var n := |chans| - 1;
    if i < n {
      OutstandingUpdate(chans[..n], i, c);
      assert chans[i := c][..n] == chans[..n][i := c];
    } else {
      assert chans[i := c][..n] == chans[..n];
    }
  }

  lemma OutstandingOpen(chans: seq<Option<Tx>>)
    ensures Outstanding(chans + [Some(Fresh)]) == Outstanding(chans)
  {
    assert (chans + [Some(Fresh)])[..|chans|] == chans;
  }

  lemma CountsOf(t: Tx)
    requires TxInv(t)
    ensures OutstandingIn(Some(t)) == t.wbytes - t.rbytes
  {
    hide FramesAt, PacksOk, Within, Unacked;
  }

  lemma StepKeepsBalance(a: Account, a': Account, move: Move)
    requires Balanced(a) && Step(a, a', move)
    ensures Balanced(a')
  {
    hide TxInv, OutstandingIn, Outstanding, Acked, Unacked;
    match move
    case Open =>
      FreshInv();
      OutstandingOpen(a.chans);
    case Send(i, m) =>
      var t := a.chans[i].value;
      QueueInv(t, m);
      CountsOf(t);
      CountsOf(Queue(t, m));
      OutstandingUpdate(a.chans, i, a'.chans[i]);
    case Hear(i, ack) =>
      var t := a.chans[i].value;
      AckedInv(t, ack);
      CountsOf(t);
      CountsOf(Acked(t, ack));
      AckedKeepsQueued(t, ack);
      OutstandingUpdate(a.chans, i, a'.chans[i]);
    case Carry(i, t) =>
      CountsOf(a.chans[i].value);
      CountsOf(t);
      OutstandingUpdate(a.chans, i, a'.chans[i]);
    case Clear(i) =>
      OutstandingUpdate(a.chans, i, None);
      NothingIn();
  }

  lemma NothingIn()
    ensures OutstandingIn(None) == 0
  {
  }

  lemma {:induction false} AckToKeepsQueued(t: Tx, k: nat)
    requires t.rpos + k <= |t.out|
    requires forall n :: t.rpos <= n < |t.out| ==> t.out[n].msg < |t.frames|
    ensures AckTo(t, k).wbytes == t.wbytes
    decreases k
  {
    if k > 0 { AckToKeepsQueued(AckOne(t), k - 1); }
  }

  lemma AckedKeepsQueued(t: Tx, a: Ack)
    requires Linked(t)
    ensures Acked(t, a).wbytes == t.wbytes
  {
    hide AckTo;
    AdvanceBounded(t, a);
    AckToKeepsQueued(t, Advance(t, a));
  }

  /** In every run, however many channels are opened and cleared: the messenger's counters differ
      by the bytes that are outstanding in the live channels. */
  lemma {:induction false} EveryRunBalances(states: seq<Account>, i: nat)
    requires Run(states) && i < |states|
    ensures Balanced(states[i])
    decreases i
  {
    hide Balanced, Step;
    if i == 0 {
      EmptyBalances();
    } else {
      EveryRunBalances(states, i - 1);
      assert Next(states[i - 1], states[i]);
      var move :| Step(states[i - 1], states[i], move);
      StepKeepsBalance(states[i - 1], states[i], move);
    }
  }

  lemma EmptyBalances()
    ensures Balanced(Empty)
  {
  }

  /** At most two moves. */
  ghost predicate Follows(a: Account, a': Account) {
    Next(a, a') || exists b :: Next(a, b) && Next(b, a')
  }

  ghost predicate Stands(a: Account, i: nat, t: Tx) { Balanced(a) && Live(a, i) && a.chans[i].value == t }

  /** Every step of a channel in its protocol is made of moves of the account, for channel `i` and
      no other: queueing is Send, a heard acknowledgement Hear, and what else a step does, renewed
      headers of fast retransmission included, Carry. */
  lemma ProtocolStepMoves(a: Account, i: nat, s: Net, s': Net, step: Protocol.Step) returns (a': Account)
    requires Stands(a, i, s.x.tx) && StepX(s, s', step)
    ensures Follows(a, a') && Stands(a', i, s'.x.tx) && a'.chans == a.chans[i := Some(s'.x.tx)]
  {
    hide TxInv, Outstanding, OutstandingIn, Acked, Queue, Refresh, SendPack, Resend, Touchable, Scanned, Genuine;
    var t := s.x.tx;
    match step
    case Submit(m) =>
      a' := a.(chans := a.chans[i := Some(Queue(t, m))], len := a.len + if HasRoom(t) then |m.body| else 0);
      Moved(a, a', Send(i, m));
    case Transmit(ok) =>
      SendingCarries(s.x, ok);
      a' := Carried(a, i, s'.x.tx);
    case Timeout(ok) =>
      SendingCarries(s.x, ok);
      a' := Carried(a, i, s'.x.tx);
    case Reply(ok) =>
      a' := Carried(a, i, s'.x.tx);
    case Deliver(d, touched, again) =>
      if Listens(s.x, d) {
        a' := HearMoves(a, i, s.x, AckIn(d).value, touched);
      } else {
        a' := Carried(a, i, s'.x.tx);
      }
  }

  lemma Moved(a: Account, a': Account, move: Move)
    requires Balanced(a) && Step(a, a', move)
    ensures Balanced(a') && Follows(a, a') && Next(a, a')
  {
    hide Balanced, Step;
    StepKeepsBalance(a, a', move);
  }

  lemma Carried(a: Account, i: nat, t: Tx) returns (a': Account)
    requires Balanced(a) && Live(a, i) && TxInv(t)
    requires t.wbytes == a.chans[i].value.wbytes && t.rbytes == a.chans[i].value.rbytes
    ensures Next(a, a') && Follows(a, a') && Stands(a', i, t) && a'.chans == a.chans[i := Some(t)]
  {
    hide TxInv, Balanced;
    a' := a.(chans := a.chans[i := Some(t)]);
    Moved(a, a', Carry(i, t));
  }

  lemma HearMoves(a: Account, i: nat, e: Endpoint, ack: Ack, touched: set<nat>) returns (a': Account)
    requires Stands(a, i, e.tx) && Ready(e.tx)
    ensures Follows(a, a') && Stands(a', i, Protocol.Hear(e, ack, touched).tx)
    ensures a'.chans == a.chans[i := Some(Protocol.Hear(e, ack, touched).tx)]
  {
    hide TxInv, Outstanding, OutstandingIn, Acked, Refresh;
    var t := Acked(e.tx, ack);
    AckedInv(e.tx, ack);
    var b := a.(chans := a.chans[i := Some(t)], pos := a.pos + t.rbytes - e.tx.rbytes);
    Moved(a, b, Hear(i, ack));
    RefreshInv(t, touched, e.rx.pos);
    RefreshCarries(t, touched, e.rx.pos);
    a' := Carried(b, i, Protocol.Hear(e, ack, touched).tx);
  }

  lemma RefreshCarries(t: Tx, touched: set<nat>, pos: nat)
    ensures Refresh(t, touched, pos).wbytes == t.wbytes && Refresh(t, touched, pos).rbytes == t.rbytes
  {
  }

  /** Sending leaves the counters of a channel alone, so it is one of the other calls. */
  lemma SendingCarries(e: Endpoint, ok: bool)
    requires TxInv(e.tx) && Ready(e.tx)
    ensures TxInv(SendPack(e, ok).tx) && TxInv(Resend(e).tx)
    ensures SendPack(e, ok).tx.wbytes == e.tx.wbytes && SendPack(e, ok).tx.rbytes == e.tx.rbytes
    ensures Resend(e).tx.wbytes == e.tx.wbytes && Resend(e).tx.rbytes == e.tx.rbytes
  {
    hide TxInv, Serialise, Evolves, Genuine;
    SendPackEvolves(e, ok);
    ResendEvolves(e, ok);
    LoadedEvolves(e);
    SerialiseCarries(e.tx);
    var t := Loaded(e);
    if Gap(|t.out|, t.spos) > 0 {
      LaunchedReady(t);
      SerialiseCarries(Launched(t));
    }
  }

  lemma SerialiseCarries(t: Tx)
    requires Ready(t)
    ensures Serialise(t).wbytes == t.wbytes && Serialise(t).rbytes == t.rbytes
  {
  }
}
