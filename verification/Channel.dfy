/** struct xchannel and the functions that update it in place.

    Every method is proved to do, on fixed-size rings and 16-bit positions, what the endpoint
    functions of Protocol do on unbounded serials: the ghost fields `tx` and `rx` follow those
    functions, and `Valid` ties the real fields to them.  Nothing is assumed about the peer. */
module Channel {
  import opened Common
  import opened Serial
  import opened Segmentation
  import opened Sender
  import opened Receiver
  import opened Protocol
  import opened Rings

  class Channel {
    var sendbuf: array<Pack>
    var srpos: nat
    var sspos: nat
    var swpos: nat

    var msgbuf: array<Option<Frame>>
    var mrpos: nat
    var mspos: nat
    var mwpos: nat

    var recvbuf: array<Option<Packet>>
    var rrpos: nat
    var rwpos: nat
    var ack: Ack
    var pending: bool
    var asm: Assembly

    var wbytes: nat
    var rbytes: nat

    /** Messages passed to on_message_from_peer and to on_message_to_peer, in call order. */
    var delivered: seq<Message>
    var completed: seq<Message>

    ghost var tx: Tx
    ghost var rx: Rx
    /** How often each packet was transmitted, as far as the code counts it. */
    ghost var tries: seq<nat>

    ghost predicate Shape()
      reads `sendbuf, `msgbuf, `recvbuf
    {
      sendbuf.Length == RANGE && msgbuf.Length == MSG_RANGE && recvbuf.Length == RANGE
    }

    ghost predicate TxValid()
      reads `sendbuf, `msgbuf, `recvbuf, `tx, `srpos, `sspos, `swpos, `mrpos, `mspos, `mwpos
      reads `wbytes, `rbytes, `completed, sendbuf, msgbuf
    {
      var t := tx;
      && Shape() && TxInv(t) && Ready(t)
      && srpos == U16(t.rpos) && sspos == U16(t.spos) && swpos == U16(|t.out|)
      && mrpos == U16(t.mrpos) && mspos == U16(t.mspos) && mwpos == U16(|t.frames|)
      && wbytes == t.wbytes && rbytes == t.rbytes
      && Shows(sendbuf[..], msgbuf[..], t)
      && completed == Msgs(t.frames)[..t.mrpos]
    }

    ghost predicate RxValid()
      reads `sendbuf, `msgbuf, `recvbuf, `rx, `rrpos, `rwpos, `ack, `pending, `asm, `delivered, recvbuf
    {
      var r := rx;
      && Shape() && RxInv(r) && r.slots == recvbuf[..]
      && rrpos == rwpos == U16(r.pos)
      && ack == Cut16(r.ack) && pending == r.pending
      && asm == r.asm && delivered == r.got
    }

    ghost predicate Valid()
      reads this, sendbuf, msgbuf, recvbuf
    {
      TxValid() && RxValid() && Counted()
    }

    ghost predicate Counted()
      reads `sendbuf, `tx, `tries, sendbuf
    {
      TriesMatch(sendbuf[..], tries, tx.rpos, |tx.out|)
    }

    /** xchannel_create */
    constructor ()
      ensures Valid() && tx == Fresh && IsFresh(rx) && tries == []
      ensures fresh(sendbuf) && fresh(msgbuf) && fresh(recvbuf)
    {
      hide TxInv, RxInv, Ready, Shows, Msgs;
      var sb := Cleared(RANGE, Pack(Packet(Req, 0, []), 0, None, None, 0, 0));
      var mb := Cleared<Option<Frame>>(MSG_RANGE, None);
      var rb := Cleared<Option<Packet>>(RANGE, None);
      sendbuf, msgbuf, recvbuf := sb, mb, rb;
      srpos, sspos, swpos := 0, 0, 0;
      mrpos, mspos, mwpos := 0, 0, 0;
      rrpos, rwpos, ack, pending, asm := 0, 0, Ack(0, 0), false, Idle;
      wbytes, rbytes, delivered, completed := 0, 0, [], [];
      ghost var r := Rx(rb[..], 0, Ack(0, 0), false, [], Idle, []);
      tx, rx, tries := Fresh, r, [];
      FreshRxInv(r);
      FreshShows(sb[..], mb[..]);
    }

    /** xmsger_send */
    method Send(m: Message) returns (ok: bool)
      requires Valid()
      modifies `tx, `wbytes, `mwpos, msgbuf
      ensures Valid() && tx == Queue(old(tx), m)
      ensures ok <==> HasRoom(old(tx))
    {
      hide TxInv, RxValid, Ready, Shows, U16, Gap, MsgSlot, Count;
      GapOfShifted(MSG_RANGE, tx.mrpos, |tx.frames|);
      ok := Gap(MSG_RANGE + mrpos, mwpos) > 0;
      if ok {
        var f := Frame(m, 0, Count(m), 0);
        QueueShows(sendbuf[..], msgbuf[..], tx, m);
        WrapStep(|tx.frames|);
        MsgSlotOfWrapped(|tx.frames|);
        wbytes := wbytes + |m.body|;
        msgbuf[MsgSlot(mwpos)] := Some(f);
        mwpos := U16(mwpos + 1);
        tx := Queue(tx, m);
      }
    }

    /** The writes of xchannel_serial_msg. */
    method Fill(k: Pack, f: Frame, ghost u: Tx)
      requires TxValid() && Counted() && Slot(swpos) == Slot(|tx.out|) && MsgSlot(mspos) == MsgSlot(tx.mspos)
      requires TxInv(u) && Ready(u) && |u.out| == |tx.out| + 1 && u.rpos == tx.rpos && u.spos == tx.spos
      requires u.mrpos == tx.mrpos && |u.frames| == |tx.frames| && u.wbytes == tx.wbytes && u.rbytes == tx.rbytes
      requires Shows(sendbuf[..][Slot(|tx.out|) := k], msgbuf[..][MsgSlot(tx.mspos) := Some(f)], u)
      requires TriesMatch(sendbuf[..][Slot(|tx.out|) := k], tries + [0], tx.rpos, |tx.out| + 1)
      requires U16(swpos + 1) == U16(|u.out|) && Msgs(u.frames) == Msgs(tx.frames)
      requires U16(u.mspos) == if f.spos == |f.msg.body| then U16(mspos + 1) else mspos
      modifies `tx, `tries, `swpos, `mspos, sendbuf, msgbuf
      ensures TxValid() && Counted() && tx == u && tries == old(tries) + [0]
    {
      hide TxInv, Shows, Msgs, U16, Slot, MsgSlot, TriesMatch;
      sendbuf[Slot(swpos)] := k;
      msgbuf[MsgSlot(mspos)] := Some(f);
      swpos := U16(swpos + 1);
      if f.spos == |f.msg.body| { mspos := U16(mspos + 1); }
      tx, tries := u, tries + [0];
    }

    /** xchannel_serial_msg.  `rtt`, the running round-trip time, is what a packet's time stamp
        starts from. */
    method SerialMsg(rtt: nat)
      requires Valid() && rtt > 0
      modifies `tx, `tries, `swpos, `mspos, sendbuf, msgbuf
      ensures Valid() && tx == Serialise(old(tx))
      ensures tries == old(tries) + if |tx.out| > |old(tx).out| then [0] else []
    {
      hide TxInv, RxValid, Shows, Msgs, Serialise, U16, Gap, Slot, MsgSlot, TriesMatch;
      ghost var t := tx;
      GapOfShifted(RANGE, t.rpos, |t.out|);
      GapOfWrapped(|t.frames|, t.mspos);
      if Gap(RANGE + srpos, swpos) > 0 && Gap(mwpos, mspos) > 0 {
        GapPositive(RANGE + t.rpos, |t.out|);
        GapPositive(|t.frames|, t.mspos);
        SlotOfWrapped(|t.out|);
        MsgSlotOfWrapped(t.mspos);
        WrapStep(|t.out|);
        WrapStep(t.mspos);
        LiveMsg(sendbuf[..], msgbuf[..], t, t.mspos);
        var f := msgbuf[MsgSlot(mspos)].value;
        var size := |f.msg.body|;
        var len := 0;
        if size > 0 {
          if size - f.spos < BODY { len := size - f.spos; } else { len := BODY; }
        }
        var p := Packet(f.msg.kind, f.range % RANGE_WRAP, f.msg.body[f.spos..f.spos + len]);
        var k := Pack(p, swpos, Some(MsgSlot(mspos)), None, rtt, 0);
        ghost var f0 := f;
        f := f.(spos := f.spos + len, range := f.range - 1);
        SerialiseCode(t, f0, f, p);
        SerialiseShows(sendbuf[..], msgbuf[..], t, Serialise(t), k, f);
        TriesAppend(sendbuf[..], tries, t.rpos, |t.out|, k);
        Fill(k, f, Serialise(t));
      } else {
        SerialiseIdle(t);
      }
    }

    /** The endpoint this channel stands for. */
    ghost function End(): Endpoint
      reads `tx, `rx
    {
      Endpoint(tx, rx)
    }

    /** Another header, time stamp or count for a live packet. */
    method Rewrite(i: nat, k: Pack, ghost n: nat, ghost o: OutPack)
      requires TxValid() && Counted() && tx.rpos <= n < |tx.out| && i == Slot(n)
      requires Match(k, o, n) && o.pack == tx.out[n].pack && o.msg == tx.out[n].msg && k.msg == sendbuf[i].msg
      modifies `tx, `tries, sendbuf
      ensures TxValid() && Counted() && tx == old(tx).(out := old(tx).out[n := o])
      ensures n < |old(tries)| && old(sendbuf[i].resend) == old(tries)[n] && tries == old(tries)[n := k.resend]
    {
      hide TxInv, Shows, Msgs, U16, Slot, MsgSlot, TriesMatch, Match;
      HeaderShows(sendbuf[..], msgbuf[..], tx, n, k, o, tx.spos);
      TriesAt(sendbuf[..], tries, tx.rpos, |tx.out|, n);
      TriesUpdate(sendbuf[..], tries, tx.rpos, |tx.out|, n, k);
      sendbuf[i] := k;
      tx, tries := tx.(out := tx.out[n := o]), tries[n := k.resend];
    }

    /** The first half of xchannel_send_pack. */
    method Load(rtt: nat)
      requires Valid() && rtt > 0
      modifies `tx, `tries, `swpos, `mspos, sendbuf, msgbuf
      ensures Valid() && tx == Loaded(old(End()))
      ensures tries == old(tries) + if |tx.out| > |old(tx).out| then [0] else []
    {
      hide TxInv, RxInv, Shows, Msgs, Serialise, U16, Gap, Slot, MsgSlot, TriesMatch;
      ghost var e := End();
      GapOfWrapped(|tx.out|, tx.spos);
      if Gap(swpos, sspos) == 0 { SerialMsg(rtt); }
      ghost var t := tx;
      GapOfWrapped(|t.out|, t.spos);
      if Gap(swpos, sspos) > 0 && pending {
        GapPositive(|t.out|, t.spos);
        SlotOfWrapped(t.spos);
        LiveSlot(sendbuf[..], msgbuf[..], t, t.spos);
        var k := sendbuf[Slot(sspos)].(ack := Some(ack));
        ghost var c := tries;
        Rewrite(Slot(sspos), k, t.spos, t.out[t.spos].(ack := Some(rx.ack)));
        assert tries == c;
      }
    }

    /** A packet the socket has taken: count it as sent and clear the acknowledgement. */
    method Launch(now: nat) returns (d: Wire)
      requires Valid() && now > 0 && tx.spos < |tx.out|
      modifies `tx, `rx, `tries, `sspos, `pending, sendbuf
      ensures Valid() && tx == Launched(old(tx)) && rx == old(rx).(pending := false)
      ensures old(tx.spos) < |old(tries)| && tries == old(tries)[old(tx.spos) := 1]
      ensures d == OnWire(Outgoing(old(tx), old(tx.spos)))
    {
      hide TxInv, FeedAll, Shows, Msgs, U16, Slot, MsgSlot, TriesMatch;
      ghost var t := tx;
      SlotOfWrapped(t.spos);
      WrapStep(t.spos);
      LiveSlot(sendbuf[..], msgbuf[..], t, t.spos);
      var k := sendbuf[Slot(sspos)];
      d := Wire(k.sn, Some(k.body), k.ack);
      k := k.(ts := now, resend := 1);
      Rewrite(Slot(sspos), k, t.spos, t.out[t.spos].(waiting := true));
      SposMoves(sendbuf[..], msgbuf[..], tx);
      pending := false;
      sspos := U16(sspos + 1);
      tx := tx.(spos := tx.spos + 1);
      rx := rx.(pending := false);
    }

    /** xchannel_send_pack; `accepted` is whether the socket takes the datagram, `now` the
        clock. */
    method SendPack(rtt: nat, now: nat, accepted: bool) returns (d: Option<Wire>)
      requires Valid() && rtt > 0 && now > 0
      modifies `tx, `rx, `tries, `swpos, `mspos, `sspos, `pending, sendbuf, msgbuf
      ensures Valid() && End() == Protocol.SendPack(old(End()), accepted)
      ensures |tries| == |tx.out| && forall n :: 0 <= n < |tries| ==>
        tries[n] == if d.Some? && n == old(tx).spos then 1 else if n < |old(tries)| then old(tries)[n] else 0
      ensures d == Wired(SentPack(old(End()), accepted))
    {
      hide TxInv, RxInv, Shows, Serialise, Loaded, U16, Gap, TriesMatch;
      d := None;
      LoadedPlace(End());
      Load(rtt);
      GapOfWrapped(|tx.out|, tx.spos);
      if Gap(swpos, sspos) > 0 && accepted {
        GapPositive(|tx.out|, tx.spos);
        var w := Launch(now);
        d := Some(w);
        SerialMsg(rtt);
      }
      TriesAt(sendbuf[..], tries, tx.rpos, |tx.out|, 0);
    }

    /** The timeout branch of xmsger_send_all. */
    method TimedOut(now: nat, accepted: bool) returns (d: Option<Wire>)
      requires Valid() && now > 0
      modifies `tx, `tries, sendbuf
      ensures Valid() && End() == Resend(old(End())) && d == Wired(Resent(old(End()), accepted))
      ensures d.None? ==> tries == old(tries)
      ensures d.Some? ==> tx.rpos < |old(tries)| && tries == old(tries)[tx.rpos := U16(old(tries)[tx.rpos] + 1)]
    {
      hide TxInv, RxInv, Shows, Msgs, U16, Gap, Slot, MsgSlot, TriesMatch;
      ghost var t := tx;
      ghost var e := End();
      d := None;
      GapOfWrapped(t.spos, t.rpos);
      if Gap(sspos, srpos) > 0 {
        GapPositive(t.spos, t.rpos);
        SlotOfWrapped(t.rpos);
        LiveSlot(sendbuf[..], msgbuf[..], t, t.rpos);
        var k := sendbuf[Slot(srpos)];
        if k.ack.Some? { k := k.(ack := Some(Ack(k.ack.value.sn, rwpos))); }
        k := k.(ts := now);
        if accepted {
          d := Some(Wire(k.sn, Some(k.body), k.ack));
          k := k.(resend := U16(k.resend + 1));
        }
        ghost var c := tries;
        Rewrite(Slot(srpos), k, t.rpos, t.out[t.rpos].(ack := Renew(t.out[t.rpos].ack, rx.pos), waiting := true));
        assert !accepted ==> tries == c;
      }
    }

    /** One turn of the cumulative loop of xchannel_recv_ack. */
    method ReleaseOne()
      requires Valid() && tx.rpos < tx.spos
      modifies `tx, `srpos, `mrpos, `rbytes, `completed, sendbuf, msgbuf
      ensures tx.rpos == old(tx.rpos) + 1 && tx.spos == old(tx.spos)
      ensures old(tx.out[tx.rpos].msg) < old(|tx.frames|) && tx == AckOne(old(tx))
      ensures Valid()
    {
      hide TxInv, RxValid, Shows, Msgs, U16, Slot, MsgSlot, AckOne, Ready, TriesMatch;
      ghost var t := tx;
      ghost var sb, mb := sendbuf[..], msgbuf[..];
      ReleaseFacts(sb, mb, t);
      var k := sendbuf[Slot(srpos)];
      var m := k.msg.value;
      var f := msgbuf[m].value;
      f := f.(rpos := f.rpos + |k.body.body|);
      k := k.(ts := 0);
      AckOneCode(t, f);
      AckOneShows(sb, mb, t, k, f);
      TriesSame(sb, tries, t.rpos, |t.out|, Slot(srpos), k);
      TriesSame(sb, tries, t.rpos, |t.out|, Slot(srpos), k.(msg := None));
      msgbuf[m] := Some(f);
      if f.rpos == |f.msg.body| {
        completed := completed + [f.msg];
        msgbuf[MsgSlot(mrpos)] := None;
        mrpos := U16(mrpos + 1);
        k := k.(msg := None);
      }
      rbytes := rbytes + |k.body.body|;
      sendbuf[Slot(srpos)] := k;
      srpos := U16(srpos + 1);
      tx := AckOne(t);
    }

    /** The cumulative loop of xchannel_recv_ack. */
    method ReleaseTo(pos: nat, ghost a: Ack)
      requires Valid() && pos == U16(a.pos)
      modifies `tx, `srpos, `mrpos, `rbytes, `completed, sendbuf, msgbuf
      ensures Linked(old(tx)) && Advance(old(tx), a) <= old(tx).spos - old(tx).rpos
      ensures Valid() && tx == AckTo(old(tx), Advance(old(tx), a))
    {
      hide TxInv, RxValid, Shows, Msgs, U16, Gap, AckOne, AckTo;
      ghost var t := tx;
      ghost var n := Advance(t, a);
      assert Linked(t) by { AckToInv(t, 0); }
      AdvanceBounded(t, a);
      AckToNone(t);
      ghost var k := 0;
      GapOfWrapped(a.pos, t.rpos);
      GapOfWrapped(t.spos, t.rpos);
      AckLoopTest(t.rpos, t.spos, a.pos, 0);
      WrapEquals(t.rpos, a.pos);
      while Gap(pos, srpos) <= Gap(sspos, srpos) && srpos != pos
        invariant Valid() && k <= n && tx.spos == t.spos && tx.rpos == t.rpos + k
        invariant tx == AckTo(t, k)
        invariant Gap(pos, srpos) <= Gap(sspos, srpos) && srpos != pos <==> k < n
        decreases n - k
      {
        AckToSnoc(t, k);
        ReleaseOne();
        k := k + 1;
        GapOfWrapped(a.pos, t.rpos + k);
        GapOfWrapped(t.spos, t.rpos + k);
        AckLoopTest(t.rpos, t.spos, a.pos, k);
        WrapEquals(t.rpos + k, a.pos);
      }
    }

    lemma Positions()
      requires Valid()
      ensures srpos == U16(tx.rpos) < WRAP && sendbuf.Length == RANGE && |tx.out| <= tx.rpos + RANGE
      ensures |tries| == |tx.out|
    {
      hide TxInv, RxInv, Shows;
    }

    /** What slot `i` of the walk tells about the `j`-th serial of the window. */
    lemma CandidateSlot(i: nat, j: nat)
      requires Valid() && i == Slot(U16(tx.rpos + j))
      ensures i < RANGE == sendbuf.Length && |tries| == |tx.out|
      ensures tx.rpos + j < |tx.out| ==>
        (sendbuf[i].ts != 0 <==> tx.out[tx.rpos + j].waiting) && sendbuf[i].resend == tries[tx.rpos + j]
    {
      hide TxInv, RxInv, Msgs, U16;
      SlotOfWrapped(tx.rpos + j);
      if tx.rpos + j < |tx.out| { LiveSlot(sendbuf[..], msgbuf[..], tx, tx.rpos + j); }
    }

    /** Renew the header of the packet in slot `i` for another transmission. */
    method Touch(i: nat, now: nat, ghost n: int) returns (k: Pack)
      requires Valid() && now > 0 && i < RANGE && sendbuf[i].ts != 0 && n == Occupant(|tx.out|, i)
      modifies `tx, `tries, sendbuf
      ensures 0 <= n && old(tx).rpos <= n < |old(tx).out| == |old(tries)| && old(tx).out[n].waiting
      ensures tries == old(tries)[n := old(tries)[n] + 1] && old(sendbuf[i].resend) == old(tries)[n]
      ensures tx == old(tx).(out := old(tx).out[n := old(tx).out[n].(ack := Renew(old(tx).out[n].ack, rx.pos))])
      ensures Valid() && Wire(k.sn, Some(k.body), k.ack) == OnWire(Outgoing(tx, n))
    {
      hide TxInv, RxInv, Shows, Msgs, U16, Slot, Occupant, Ready, TriesMatch;
      k := sendbuf[i];
      k := k.(resend := k.resend + 1, ts := now);
      if k.ack.Some? { k := k.(ack := Some(Ack(k.ack.value.sn, rwpos))); }
      TouchFacts(sendbuf[..], msgbuf[..], tx, rx.pos, i, n, k);
      Positions();
      Rewrite(i, k, n, tx.out[n].(ack := Renew(tx.out[n].ack, rx.pos)));
    }

    /** The retransmission loop of xchannel_recv_ack: walk the serials from rpos to the
        acknowledged one, renew the headers of packets that look lost and were sent less than
        twice, and stop at the first the socket takes; `accepts` is what the socket answers at each
        index. When the acknowledged serial is in the window the walk stays between the two. */
    method FastResend(sn: nat, now: nat, accepts: nat -> bool, ghost a: Ack)
      returns (again: Option<Wire>, ghost touched: set<nat>, ghost which: Option<nat>)
      requires Valid() && sn == U16(a.sn) && now > 0
      modifies `tx, `tries, sendbuf
      ensures Valid() && tx == Refresh(old(tx), touched, rx.pos)
      ensures Touchable(old(tx), touched) && Scanned(old(tx), a.sn, touched)
      ensures Tried(old(tx), old(tries), a.sn, touched, which)
      ensures Recounted(old(tx), old(tries), a.sn, touched, tries)
      ensures Obeyed(old(tx), a.sn, touched, which, accepts)
      ensures which.Some? ==> which.value in touched
      ensures again == Wired(Hurried(End(), which))
    {
      hide TxValid, RxValid, Counted, U16, Slot, Occupant, Gap, Tried, Recounted, Walked, Refresh, Touchable, Scanned,
          Obeyed;
      Positions();
      again, touched, which := None, {}, None;
      ghost var t, j: nat := tx, 0;
      ghost var c := tries;
      RefreshNone(t, rx.pos);
      WalkStarts(t, c, a.sn);
      NoneTaken(t, a.sn, accepts);
      var index: nat := srpos;
      GapOfWrapped(a.sn, t.rpos);
      while index != sn
        invariant index == U16(t.rpos + j) && Valid() && sendbuf.Length == RANGE
        invariant tx == Refresh(t, touched, rx.pos) && Touchable(t, touched)
        invariant Gap(sn, index) + j == Gap(a.sn, t.rpos)
        invariant Walked(t, c, a.sn, touched, tries, j)
        invariant again.None? && which.None? && Obeyed(t, a.sn, touched, None, accepts)
        decreases Gap(sn, index)
      {
        IndexStep(sn, index);
        var i := Slot(index);
        ghost var before, seen := tries, touched;
        RefreshSame(t, touched, rx.pos);
        CandidateSlot(i, j);
        if sendbuf[i].ts != 0 && sendbuf[i].resend < 2 {
          ghost var n := Occupant(|tx.out|, i);
          var k := Touch(i, now, n);
          RefreshMore(t, touched, n, rx.pos);
          ScanPlace(t, n, j);
          WalkTries(t, c, a.sn, seen, before, j, n);
          NextAnswer(t, c, a.sn, touched, before, n, j, accepts);
          touched := touched + {n};
          if accepts(index) {
            again := Some(Wire(k.sn, Some(k.body), k.ack));
            which := Some(n);
            return;
          }
        } else {
          WalkSkips(t, c, a.sn, seen, before, j);
        }
        WrapStep(t.rpos + j);
        index := U16(index + 1);
        j := j + 1;
      }
      GapNone(sn);
      WalkEnds(t, c, a.sn, touched, tries, j);
    }

    /** A selective acknowledgement clears the time stamp in its slot. */
    method MarkSlot(sn: nat, ghost a: Ack)
      requires Valid() && sn == U16(a.sn)
      modifies `tx, sendbuf
      ensures Valid() && tx == Mark(old(tx), Occupant(|old(tx).out|, a.sn))
    {
      hide TxInv, RxValid, Shows, Ready, Msgs, U16, Slot, Occupant, TriesMatch;
      SlotOfWrapped(a.sn);
      MarkShows(sendbuf[..], msgbuf[..], tx, a.sn);
      var k := sendbuf[Slot(sn)];
      TriesSame(sendbuf[..], tries, tx.rpos, |tx.out|, Slot(sn), k.(ts := 0));
      if k.ts != 0 { sendbuf[Slot(sn)] := k.(ts := 0); }
      tx := Mark(tx, Occupant(|tx.out|, a.sn));
    }

    /** xchannel_recv_ack, for any two 16-bit numbers. */
    method RecvAck(sn: nat, pos: nat, now: nat, accepts: nat -> bool, ghost a: Ack)
      returns (again: Option<Wire>, ghost touched: set<nat>, ghost which: Option<nat>)
      requires Valid() && now > 0 && sn == U16(a.sn) && pos == U16(a.pos)
      modifies `tx, `tries, `srpos, `mrpos, `rbytes, `completed, sendbuf, msgbuf
      ensures Valid() && End() == Hear(old(End()), a, touched)
      ensures Hurries(old(tx), a) ==> Tried(Acked(old(tx), a), old(tries), a.sn, touched, which)
      ensures Hurries(old(tx), a) ==> Recounted(Acked(old(tx), a), old(tries), a.sn, touched, tries)
      ensures Hurries(old(tx), a) ==> Obeyed(Acked(old(tx), a), a.sn, touched, which, accepts)
      ensures !Hurries(old(tx), a) ==> touched == {} && which.None? && tries == old(tries)
      ensures Touchable(Acked(old(tx), a), touched) && Scanned(Acked(old(tx), a), a.sn, touched)
      ensures which.Some? ==> which.value in touched
      ensures again == Wired(Hurried(End(), which))
    {
      hide TxInv, RxInv, Shows, Msgs, U16, Gap, Slot, AckTo, Occupant, Mark, Refresh, Tried, Recounted, Counted, Obeyed;
      again, touched, which := None, {}, None;
      ghost var t := tx;
      GapOfWrapped(t.spos, t.rpos);
      GapOfWrapped(a.sn, t.rpos);
      if Gap(sspos, srpos) > 0 && Gap(sn, srpos) <= Gap(sspos, srpos) {
        ReleaseTo(pos, a);
        ghost var u := tx;
        AckToInv(t, Advance(t, a));
        if sn != pos {
          MarkSlot(sn, a);
          GapOfWrapped(a.sn, u.rpos);
          if Gap(sn, srpos) > 3 {
            again, touched, which := FastResend(sn, now, accepts, a);
          }
        }
      }
    }

    /** The receive ring between storing packets and handing them to reassembly. */
    ghost predicate RxOpen()
      reads `sendbuf, `msgbuf, `recvbuf, `rx, `rrpos, `asm, `delivered, recvbuf
    {
      && Shape() && RxInv(rx) && rx.slots == recvbuf[..] && rrpos == U16(rx.pos)
      && asm == rx.asm && delivered == rx.got
    }

    /** xchannel_recv_msg: hand over the `c` packets between rpos and wpos.  The loop ends at the
        first empty slot, and that is exactly at wpos. */
    method RecvMsg(ghost c: nat)
      requires RxOpen() && c <= RANGE && rwpos == U16(rx.pos + c)
      requires c > 0 ==> Gapless(rx, c) && (c == RANGE || rx.slots[Slot(rx.pos + c)].None?)
      modifies `rx, `rrpos, `asm, `delivered, recvbuf
      ensures RxOpen() && rrpos == rwpos && rx == Drain(old(rx), c)
    {
      hide FeedAll, Feed, U16, Gap, Slot, Drain, Gapless;
      ghost var r := rx;
      GapOfWrapped(r.pos + c, r.pos);
      GapExact(r.pos, c);
      DrainNone(r);
      if Gap(rwpos, rrpos) > 0 {
        SlotOfWrapped(r.pos);
        DrainPrefix(r, c, 0);
        var p := recvbuf[Slot(rrpos)];
        ghost var j := 0;
        while p.Some?
          invariant RxOpen() && j <= c && rx == Drain(r, j) && rx.pos == r.pos + j
          invariant p == recvbuf[Slot(rrpos)] && Slot(rrpos) == Slot(rx.pos)
          invariant p.Some? <==> j < c
          decreases c - j
        {
          DrainSnoc(r, j);
          FeedSnoc(Idle, rx.log, p.value);
          WrapStep(rx.pos);
          var f := Feed(asm, p.value);
          asm := f.asm;
          delivered := delivered + f.done;
          recvbuf[Slot(rrpos)] := None;
          rrpos := U16(rrpos + 1);
          rx := DrainOne(rx);
          j := j + 1;
          SlotOfWrapped(rx.pos);
          DrainPrefix(r, c, j);
          p := recvbuf[Slot(rrpos)];
        }
      }
    }

    /** Move wpos over the packet just stored and over every early packet behind it, but not
        past a full ring. */
    method AdvanceWpos() returns (ghost c: nat)
      requires RxOpen() && rwpos == U16(rx.pos) && rx.slots[Slot(rx.pos)].Some?
      modifies `rwpos, `ack
      ensures 1 <= c <= RANGE && Gapless(rx, c) && rwpos == U16(rx.pos + c) && ack == Ack(rwpos, rwpos)
      ensures c == RANGE || rx.slots[Slot(rx.pos + c)].None?
    {
      hide RxInv, U16, Gap, Slot, Gapless;
      ghost var r := rx;
      WrapStep(r.pos);
      rwpos := U16(rwpos + 1);
      ack := Ack(rwpos, rwpos);
      c := 1;
      GaplessOne(r);
      AdvanceFacts(r.pos, c);
      while recvbuf[Slot(rwpos)].Some? && Gap(RANGE + rrpos, rwpos) > 0
        invariant 1 <= c <= RANGE && Gapless(r, c)
        invariant rwpos == U16(r.pos + c) && Slot(rwpos) == Slot(r.pos + c)
        invariant Gap(RANGE + rrpos, rwpos) == RANGE - c && ack == Ack(rwpos, rwpos)
        decreases RANGE - c
      {
        GaplessMore(r, c);
        WrapStep(r.pos + c);
        rwpos := U16(rwpos + 1);
        ack := Ack(rwpos, rwpos);
        c := c + 1;
        AdvanceFacts(r.pos, c);
      }
    }

    /** The branch of xchannel_recv_pack for the awaited packet: store it, move wpos, and hand
        over everything that is in order now. */
    method StoreExact(p: Packet, ghost n: nat)
      requires RxValid() && U16(n) == rwpos
      modifies `rx, `rrpos, `rwpos, `ack, `pending, `asm, `delivered, recvbuf
      ensures RxValid() && rx == Take(old(rx), n, p)
    {
      hide FeedAll, U16, Gap, Slot, Drain, Gapless, Take;
      ghost var r0 := rx;
      SameSlot(n, r0.pos);
      recvbuf[Slot(rwpos)] := Some(p);
      rx := Place(rx, n, p);
      ghost var r := rx;
      ghost var c := AdvanceWpos();
      RecvMsg(c);
      DrainAll(r, c);
      pending := true;
      rx := rx.(ack := Ack(rx.pos, rx.pos), pending := true);
      TakeExact(r0, n, p);
    }

    /** The other two branches: an early packet goes into its slot if that is empty, a late one
        is only answered. */
    method StoreOther(p: Packet, sn: nat, ghost n: nat)
      requires RxValid() && sn == U16(n) && sn != rwpos
      modifies `rx, `rrpos, `ack, `pending, `asm, `delivered, recvbuf
      ensures RxValid() && rx == Take(old(rx), n, p)
    {
      hide RxInv, U16, Gap, Slot, Take;
      GapOfWrapped(n, rx.pos);
      GapOfWrapped(rx.pos, n);
      SlotOfWrapped(n);
      TakeOther(rx, n, p);
      if Gap(rwpos, sn) > Gap(sn, rwpos) {
        ack := Ack(sn, rwpos);
        if recvbuf[Slot(sn)].None? { recvbuf[Slot(sn)] := Some(p); }
      } else {
        ack := Ack(rwpos, rwpos);
      }
      pending := true;
      rx := Take(rx, n, p);
      DrainNone(rx);
      RecvMsg(0);
    }

    lemma Arrivals()
      requires Valid()
      ensures rwpos == U16(rx.pos) && recvbuf.Length == RANGE && recvbuf[..] == rx.slots && Ring(rx) && Ready(tx)
      ensures forall a :: Touchable(Acked(tx, a), {})
    {
      hide TxInv, RxInv, Shows, Msgs;
    }

    /** xchannel_recv_pack, for any serial and packet. */
    method RecvPack(w: Wire, now: nat, accepts: nat -> bool, ghost d: Datagram)
      returns (again: Option<Wire>, ghost touched: set<nat>, ghost which: Option<nat>)
      requires Valid() && now > 0 && d.Data? && w == OnWire(d)
      modifies this, sendbuf, msgbuf, recvbuf
      ensures Valid() && End() == Receive(old(End()), d, touched)
      ensures MayHurry(old(End()), d, touched, which) && again == Wired(Hurried(End(), which))
      ensures HurriedBy(old(End()), d) ==>
        && Tried(Acked(old(tx), AckIn(d).value), old(tries), AckIn(d).value.sn, touched, which)
        && Recounted(Acked(old(tx), AckIn(d).value), old(tries), AckIn(d).value.sn, touched, tries)
        && Obeyed(Acked(old(tx), AckIn(d).value), AckIn(d).value.sn, touched, which, accepts)
      ensures !HurriedBy(old(End()), d) ==> touched == {} && which.None? && tries == old(tries)
      ensures sendbuf == old(sendbuf) && msgbuf == old(msgbuf) && recvbuf == old(recvbuf)
    {
      hide TxValid, RxValid, U16, Gap, Slot, Take, Acked, Hurries, Refresh, Place, Tried, Recounted, Counted, Obeyed;
      again, touched, which := None, {}, None;
      Arrivals();
      ghost var n := d.sn;
      GapOfWrapped(n, rx.pos);
      GapOfWrapped(rx.pos, n);
      SlotOfWrapped(n);
      var first := w.sn == rwpos ||
                   (Gap(rwpos, w.sn) > Gap(w.sn, rwpos) && recvbuf[Slot(w.sn)].None?);
      if first && w.ack.Some? {
        again, touched, which := RecvAck(w.ack.value.sn, w.ack.value.pos, now, accepts, d.carried.value);
      }
      if w.sn == rwpos {
        StoreExact(w.body.value, n);
      } else {
        StoreOther(w.body.value, w.sn, n);
      }
    }

    /** xchannel_send_ack */
    method SendAck(accepted: bool) returns (d: Option<Wire>)
      requires Valid()
      modifies `rx, `pending
      ensures Valid() && rx == old(rx).(pending := old(rx).pending && !accepted)
      ensures d == if accepted then Some(OnWire(Bare(old(rx).ack))) else None
    {
      hide TxValid, FeedAll, U16;
      d := None;
      if accepted {
        d := Some(Wire(0, None, Some(ack)));
        pending := false;
      }
      rx := rx.(pending := pending);
    }

    /** The loop of xchannel_clear over the message ring: the bytes it takes off the messenger's
        account are exactly the ones this channel had put there and not got acknowledged. */
    method UnsentBytes() returns (n: int)
      requires Valid()
      ensures n == Unacked(tx.frames, tx.mrpos) == wbytes - rbytes
    {
      hide RxInv, FramesAt, PacksOk, Within, RingMatch, LinkMatch, MsgMatch, Ready;
      n := 0;
      for i := 0 to MSG_RANGE
        invariant n == SlotSum(msgbuf[..], i)
      {
        if msgbuf[i].Some? { n := n + |msgbuf[i].value.msg.body| - msgbuf[i].value.rpos; }
      }
      SlotSumIsUnacked(msgbuf[..], tx);
    }
  }

  method Cleared<T>(n: nat, x: T) returns (a: array<T>)
    ensures fresh(a) && a.Length == n && forall i :: 0 <= i < n ==> a[..][i] == x
  {
    a := new T[n](_ => x);
  }

  lemma FreshRxInv(r: Rx)
    requires IsFresh(r)
    ensures RxInv(r)
  {
  }

  lemma FreshShows(sb: seq<Pack>, mb: seq<Option<Frame>>)
    requires |sb| == RANGE && |mb| == MSG_RANGE
    requires forall i :: 0 <= i < RANGE ==> sb[i].ts == 0
    requires forall j :: 0 <= j < MSG_RANGE ==> mb[j].None?
    ensures TxInv(Fresh) && Ready(Fresh) && Shows(sb, mb, Fresh)
  {
    FreshInv();
  }

  lemma QueueShows(sb: seq<Pack>, mb: seq<Option<Frame>>, t: Tx, m: Message)
    requires TxInv(t) && Shows(sb, mb, t) && HasRoom(t)
    ensures var t' := Queue(t, m);
            && TxInv(t') && Ready(t')
            && Shows(sb, mb[MsgSlot(|t.frames|) := Some(Frame(m, 0, Count(m), 0))], t')
            && Msgs(t'.frames)[..t.mrpos] == Msgs(t.frames)[..t.mrpos]
  {
    hide FramesAt, PacksOk, CountsOk, Within, RingMatch, Count;
    QueueInv(t, m);
    InvReady(Queue(t, m));
    MsgAppend(mb, t, Frame(m, 0, Count(m), 0));
    MsgMatchCongruent(mb[MsgSlot(|t.frames|) := Some(Frame(m, 0, Count(m), 0))],
                      t.(frames := t.frames + [Frame(m, 0, Count(m), 0)]), Queue(t, m));
  }

  lemma MsgMatchCongruent(mb: seq<Option<Frame>>, t: Tx, u: Tx)
    requires MsgMatch(mb, t) && t.frames == u.frames && t.mrpos == u.mrpos
    ensures MsgMatch(mb, u)
  {
  }

  /** The code's local variables give the value of Serialise. */
  lemma SerialiseCode(t: Tx, f: Frame, f': Frame, p: Packet)
    requires Ready(t) && t.mspos < |t.frames| && f == t.frames[t.mspos]
    requires Gap(RANGE + t.rpos, |t.out|) > 0 && Gap(|t.frames|, t.mspos) > 0
    requires var size := |f.msg.body|;
             var len := if size > 0 then (if size - f.spos < BODY then size - f.spos else BODY) else 0;
             && f' == f.(spos := f.spos + len, range := f.range - 1)
             && p == Packet(f.msg.kind, f.range % RANGE_WRAP, f.msg.body[f.spos..f.spos + len])
    ensures Serialise(t) ==
            t.(frames := t.frames[t.mspos := f'], out := t.out + [OutPack(p, t.mspos, None, true)],
               mspos := if f'.spos == |f.msg.body| then t.mspos + 1 else t.mspos)
  {
  }

  lemma SerialiseIdle(t: Tx)
    requires Ready(t)
    requires Gap(RANGE + t.rpos, |t.out|) == 0 || Gap(|t.frames|, t.mspos) == 0
    ensures Serialise(t) == t
  {
  }

  lemma SerialiseShows(sb: seq<Pack>, mb: seq<Option<Frame>>, t: Tx, t': Tx, k: Pack, f: Frame)
    requires TxInv(t) && Ready(t) && Shows(sb, mb, t) && t' == Serialise(t)
    requires t.mspos < |t.frames| && |t.out| < t.rpos + RANGE && f.msg == t.frames[t.mspos].msg
    requires t'.frames == t.frames[t.mspos := f]
    requires t'.out == t.out + [OutPack(k.body, t.mspos, None, true)]
    requires t'.rpos == t.rpos && t'.mrpos == t.mrpos
    requires k.ts > 0 && k.ack.None? && k.sn == U16(|t.out|) && k.msg == Some(MsgSlot(t.mspos))
    ensures && TxInv(t') && Ready(t')
            && Shows(sb[Slot(|t.out|) := k], mb[MsgSlot(t.mspos) := Some(f)], t')
            && Msgs(t'.frames) == Msgs(t.frames)
  {
    hide FramesAt, PacksOk, CountsOk, Within, RingMatch, Serialise;
    SerialiseInv(t);
    InvReady(t');
    var w := |t.out|;
    RingAppend(sb, t.out, k, t'.out[w]);
    LinkUpdate(sb, t, w, k);
    MsgUpdate(mb, t, t.mspos, f);
    assert Msgs(t'.frames) == Msgs(t.frames);
    assert MsgMatch(mb[MsgSlot(t.mspos) := Some(f)], t') by {
      MsgMatchCongruent(mb[MsgSlot(t.mspos) := Some(f)], t.(frames := t.frames[t.mspos := f]), t');
    }
  }

  /** Rewriting the header, mark or send position at a live packet. */
  lemma HeaderShows(sb: seq<Pack>, mb: seq<Option<Frame>>, t: Tx, n: nat, k: Pack, o: OutPack, s: nat)
    requires TxInv(t) && Ready(t) && Shows(sb, mb, t) && t.rpos <= n < |t.out| && t.rpos <= s <= |t.out|
    requires o.pack == t.out[n].pack && o.msg == t.out[n].msg
    requires Match(k, o, n) && k.msg == sb[Slot(n)].msg
    ensures var t' := t.(out := t.out[n := o], spos := s);
            && TxInv(t') && Ready(t') && Shows(sb[Slot(n) := k], mb, t')
  {
    hide FramesAt, CountsOk, Within, RingMatch, MsgMatch, Match;
    var t' := t.(out := t.out[n := o], spos := s);
    RelabelInv(t, t'.out, s);
    InvReady(t');
    RingUpdate(sb, t.out, n, k, o);
    LinkUpdate(sb, t, n, k);
    MsgMatchCongruent(mb, t, t');
  }

  /** What one turn of the cumulative loop reads. */
  lemma ReleaseFacts(sb: seq<Pack>, mb: seq<Option<Frame>>, t: Tx)
    requires TxInv(t) && Ready(t) && Shows(sb, mb, t) && t.rpos < t.spos
    ensures |sb| == RANGE && |mb| == MSG_RANGE && t.rpos < |t.out|
    ensures t.out[t.rpos].msg == t.mrpos < |t.frames|
    ensures sb[Slot(t.rpos)].msg == Some(MsgSlot(t.mrpos)) && sb[Slot(t.rpos)].body == t.out[t.rpos].pack
    ensures mb[MsgSlot(t.mrpos)] == Some(t.frames[t.mrpos])
    ensures Slot(U16(t.rpos)) == Slot(t.rpos) && MsgSlot(U16(t.mrpos)) == MsgSlot(t.mrpos)
    ensures U16(U16(t.rpos) + 1) == U16(t.rpos + 1) && U16(U16(t.mrpos) + 1) == U16(t.mrpos + 1)
  {
    hide FramesAt, PacksOk, CountsOk, Within, RingMatch, MsgAt, AckOne, CutAll, U16, Slot, MsgSlot;
    SlotOfWrapped(t.rpos);
    MsgSlotOfWrapped(t.mrpos);
    WrapStep(t.rpos);
    WrapStep(t.mrpos);
    AckOneInv(t);
    LiveSlot(sb, mb, t, t.rpos);
    LiveMsg(sb, mb, t, t.mrpos);
  }

  /** The code's local variables give the value of AckOne. */
  lemma AckOneCode(t: Tx, f: Frame)
    requires t.rpos < |t.out| && t.out[t.rpos].msg == t.mrpos < |t.frames|
    requires f == t.frames[t.mrpos].(rpos := t.frames[t.mrpos].rpos + |t.out[t.rpos].pack.body|)
    ensures var last := f.rpos == |f.msg.body|; var o := t.out[t.rpos];
            AckOne(t) == t.(frames := t.frames[t.mrpos := f], out := t.out[t.rpos := o.(waiting := false)],
                            rpos := t.rpos + 1, rbytes := t.rbytes + |o.pack.body|,
                            reported := if last then t.reported + [t.mrpos] else t.reported,
                            mrpos := if last then t.mrpos + 1 else t.mrpos)
  {
  }

  lemma AckOneShows(sb: seq<Pack>, mb: seq<Option<Frame>>, t: Tx, k: Pack, f: Frame)
    requires TxInv(t) && Ready(t) && Shows(sb, mb, t) && t.rpos < t.spos
    requires t.out[t.rpos].msg == t.mrpos < |t.frames|
    requires f == t.frames[t.mrpos].(rpos := t.frames[t.mrpos].rpos + |t.out[t.rpos].pack.body|)
    requires k == sb[Slot(t.rpos)].(ts := 0)
    ensures var t' := AckOne(t); var last := f.rpos == |f.msg.body|;
            && TxInv(t') && Ready(t')
            && Shows(sb[Slot(t.rpos) := if last then k.(msg := None) else k],
                     if last then mb[MsgSlot(t.mrpos) := Some(f)][MsgSlot(t.mrpos) := None]
                     else mb[MsgSlot(t.mrpos) := Some(f)], t')
            && Msgs(t'.frames)[..t'.mrpos] ==
               Msgs(t.frames)[..t.mrpos] + (if last then [f.msg] else [])
  {
    hide FramesAt, PacksOk, CountsOk, Within, RingMatch, MsgAt, AckOne, CutAll;
    AckOneInv(t);
    AckOneCode(t, f);
    var t' := AckOne(t);
    InvReady(t');
    var last := f.rpos == |f.msg.body|;
    var k' := if last then k.(msg := None) else k;
    LiveSlot(sb, mb, t, t.rpos);
    RingUpdate(sb, t.out, t.rpos, k', t'.out[t.rpos]);
    AckOneLinks(sb, t, t', k');
    var mb1 := mb[MsgSlot(t.mrpos) := Some(f)];
    var t1 := t.(frames := t.frames[t.mrpos := f]);
    MsgUpdate(mb, t, t.mrpos, f);
    if last {
      MsgRelease(mb1, t1);
      MsgMatchCongruent(mb1[MsgSlot(t.mrpos) := None], t1.(mrpos := t.mrpos + 1), t');
    } else {
      MsgMatchCongruent(mb1, t1, t');
    }
    assert Msgs(t'.frames) == Msgs(t.frames);
  }

  lemma AckOneLinks(sb: seq<Pack>, t: Tx, t': Tx, k: Pack)
    requires LinkMatch(sb, t) && Windows(t) && t.rpos < |t.out|
    requires t'.rpos == t.rpos + 1 && |t'.out| == |t.out|
    requires forall n :: 0 <= n < |t.out| ==> t'.out[n].msg == t.out[n].msg
    ensures LinkMatch(sb[Slot(t.rpos) := k], t')
  {
    forall n | t'.rpos <= n < |t'.out| ensures Slot(n) != Slot(t.rpos) {
      SerialAtUnique(t.rpos, n);
      SerialAtUnique(t.rpos, t.rpos);
    }
  }

  lemma AckToNone(t: Tx)
    requires Linked(t)
    ensures AckTo(t, 0) == t
  {
  }

  lemma RefreshNone(t: Tx, pos: nat)
    ensures Refresh(t, {}, pos) == t
  {
    assert Refresh(t, {}, pos).out == t.out;
  }

  lemma SlotRange(i: nat)
    requires i < RANGE
    ensures Slot(i) == i
  {
  }

  lemma IndexStep(sn: nat, index: nat)
    requires sn < WRAP && index < WRAP && index != sn
    ensures Gap(sn, U16(index + 1)) == Gap(sn, index) - 1
    ensures U16(index + 1) < WRAP
  {
  }

  /** The `j`-th slot of the walk holds the `j`-th packet of the window, while the walk has not
      gone round. */
  lemma ScanPlace(t: Tx, n: nat, j: nat)
    requires t.rpos <= n < |t.out| <= t.rpos + RANGE
    requires n == Occupant(|t.out|, Slot(U16(t.rpos + j)))
    ensures j < RANGE ==> n == t.rpos + j
  {
    SlotOfWrapped(t.rpos + j);
    OccupantSlot(|t.out|, Slot(t.rpos + j));
    SlotRange(Slot(t.rpos + j));
    if j < RANGE {
      SerialAtUnique(t.rpos, n);
      SerialAtUnique(t.rpos, t.rpos + j);
    }
  }

  /** Renewing the header in slot `i`, whose packet is still waiting. */
  lemma TouchFacts(sb: seq<Pack>, mb: seq<Option<Frame>>, u: Tx, pos: nat, i: nat, n: int, k: Pack)
    requires TxInv(u) && Ready(u) && Shows(sb, mb, u)
    requires i < RANGE && sb[i].ts != 0 && n == Occupant(|u.out|, i)
    requires k == sb[i].(resend := k.resend, ts := k.ts, ack := k.ack) && k.ts != 0
    requires k.ack == if sb[i].ack.Some? then Some(Ack(sb[i].ack.value.sn, U16(pos))) else None
    ensures 0 <= n && u.rpos <= n < |u.out| && u.out[n].waiting && i == Slot(n)
    ensures var o := u.out[n].(ack := Renew(u.out[n].ack, pos));
            Match(k, o, n) && k.sn == U16(n) && k.body == o.pack && k.ack == CutAck(o.ack)
  {
    hide FramesAt, CountsOk, Within, MsgMatch, CutAll, Base, U16, Occupant;
    assert Match(sb[i], u.out[n], n);
    SlotRange(i);
    OccupantSlot(|u.out|, i);
  }

  lemma SposMoves(sb: seq<Pack>, mb: seq<Option<Frame>>, t: Tx)
    requires TxInv(t) && Ready(t) && Shows(sb, mb, t) && t.spos < |t.out|
    ensures var t' := t.(spos := t.spos + 1); TxInv(t') && Ready(t') && Shows(sb, mb, t')
  {
    hide FramesAt, CountsOk, Within, RingMatch;
    RelabelInv(t, t.out, t.spos + 1);
    assert t.(out := t.out, spos := t.spos + 1) == t.(spos := t.spos + 1);
    InvReady(t.(spos := t.spos + 1));
    MsgMatchCongruent(mb, t, t.(spos := t.spos + 1));
  }

  lemma RefreshMore(t: Tx, touched: set<nat>, n: nat, pos: nat)
    requires n < |t.out|
    ensures var u := Refresh(t, touched, pos);
            Refresh(t, touched + {n}, pos) == u.(out := u.out[n := u.out[n].(ack := Renew(u.out[n].ack, pos))])
  {
    var u := Refresh(t, touched, pos);
    assert Refresh(t, touched + {n}, pos).out == u.out[n := u.out[n].(ack := Renew(u.out[n].ack, pos))];
  }

  /** Clearing the time stamp in the acknowledged slot is Mark. */
  lemma MarkShows(sb: seq<Pack>, mb: seq<Option<Frame>>, t: Tx, sn: nat)
    requires TxInv(t) && Ready(t) && Shows(sb, mb, t)
    ensures var t' := Mark(t, Occupant(|t.out|, sn)); var k := sb[Slot(sn)];
            && TxInv(t') && Ready(t')
            && Shows(if k.ts != 0 then sb[Slot(sn) := k.(ts := 0)] else sb, mb, t')
  {
    hide FramesAt, CountsOk, Within, MsgMatch, CutAll, Base, U16;
    var n := Occupant(|t.out|, sn);
    OccupantSlot(|t.out|, sn);
    var i := Slot(sn);
    var k := sb[i];
    OccupantOfSlot(|t.out|, sn);
    MarkInv(t, n);
    var t' := Mark(t, n);
    InvReady(t');
    if k.ts != 0 {
      assert Match(k, t.out[n], n) && t.out[n].waiting;
      HeaderShows(sb, mb, t, n, k.(ts := 0), t.out[n].(waiting := false), t.spos);
    } else if n >= 0 {
      assert Match(k, t.out[n], n);
      assert t'.out == t.out;
    }
  }

  lemma OccupantOfSlot(w: nat, sn: nat)
    ensures Occupant(w, Slot(sn)) == Occupant(w, sn)
  {
    SlotShift(w - 1 - sn, sn / RANGE);
    assert w - 1 - Slot(sn) == w - 1 - sn + RANGE * (sn / RANGE);
  }

  lemma GapExact(lo: nat, c: nat)
    requires c <= RANGE
    ensures Gap(lo + c, lo) == c
  {
  }

  lemma RoomLeft(lo: nat, c: nat)
    requires c <= RANGE
    ensures Gap(RANGE + lo, lo + c) == RANGE - c
  {
  }

  lemma AdvanceFacts(lo: nat, c: nat)
    requires c <= RANGE
    ensures Slot(U16(lo + c)) == Slot(lo + c)
    ensures Gap(RANGE + U16(lo), U16(lo + c)) == RANGE - c
  {
    hide U16, Gap, Slot;
    SlotOfWrapped(lo + c);
    RoomLeft(lo, c);
    GapOfShifted(RANGE, lo, lo + c);
  }

  lemma SameSlot(n: nat, pos: nat)
    requires U16(n) == U16(pos)
    ensures Slot(n) == Slot(pos) == Slot(U16(pos))
  {
    hide U16, Slot;
    SlotOfWrapped(n);
    SlotOfWrapped(pos);
  }

  lemma DrainAll(r: Rx, c: nat)
    requires Ring(r) && c <= RANGE && Gapless(r, c)
    requires c == RANGE || r.slots[Slot(r.pos + c)].None?
    ensures Drain(r, RANGE) == Drain(r, c)
  {
    hide Drain, Gapless;
    DrainPrefix(r, c, c);
    DrainStable(r, c, RANGE);
  }

  lemma DrainNone(r: Rx)
    requires Ring(r)
    ensures Drain(r, 0) == r
  {
  }

  lemma GaplessOne(r: Rx)
    requires Ring(r) && r.slots[Slot(r.pos)].Some?
    ensures Gapless(r, 1)
  {
  }

  lemma GaplessMore(r: Rx, c: nat)
    requires Ring(r) && Gapless(r, c) && r.slots[Slot(r.pos + c)].Some?
    ensures Gapless(r, c + 1)
  {
  }

  lemma TakeExact(r: Rx, n: nat, p: Packet)
    requires Ring(r) && U16(n) == U16(r.pos)
    ensures Take(r, n, p) ==
            var d := Drain(Place(r, n, p), RANGE); d.(ack := Ack(d.pos, d.pos), pending := true)
  {
  }

  lemma TakeOther(r: Rx, n: nat, p: Packet)
    requires RxInv(r) && U16(n) != U16(r.pos)
    ensures var early := Gap(r.pos, n) > Gap(n, r.pos);
            Take(r, n, p) == r.(
              slots := if early && r.slots[Slot(n)].None? then r.slots[Slot(n) := Some(p)] else r.slots,
              ack := if early then Ack(n, r.pos) else Ack(r.pos, r.pos), pending := true)
    ensures RxInv(Take(r, n, p))
  {
    hide FeedAll;
  }

  function Pending(f: Option<Frame>): int {
    if f.Some? then |f.value.msg.body| - f.value.rpos else 0
  }

  function SlotSum(mb: seq<Option<Frame>>, k: nat): int
    requires k <= |mb|
  {
    if k == 0 then 0 else SlotSum(mb, k - 1) + Pending(mb[k - 1])
  }

  lemma {:induction false} SlotSumRelease(mb: seq<Option<Frame>>, i: nat, k: nat)
    requires k <= |mb| && i < |mb|
    ensures SlotSum(mb, k) == SlotSum(mb[i := None], k) + if i < k then Pending(mb[i]) else 0
    decreases k
  {
    if k > 0 { SlotSumRelease(mb, i, k - 1); }
  }

  lemma {:induction false} SlotSumEmpty(mb: seq<Option<Frame>>, k: nat)
    requires k <= |mb| && forall j :: 0 <= j < |mb| ==> mb[j].None?
    ensures SlotSum(mb, k) == 0
    decreases k
  {
    if k > 0 { SlotSumEmpty(mb, k - 1); }
  }

  /** Summing the slots in ring order is summing the live messages in queue order. */
  lemma {:induction false} SlotSumIsUnacked(mb: seq<Option<Frame>>, t: Tx)
    requires MsgMatch(mb, t) && Windows(t)
    ensures SlotSum(mb, MSG_RANGE) == Unacked(t.frames, t.mrpos)
    decreases |t.frames| - t.mrpos
  {
    if t.mrpos == |t.frames| {
      SlotSumEmpty(mb, MSG_RANGE);
    } else {
      MsgRelease(mb, t);
      MsgAtOfLive(t.mrpos, t.mrpos);
      SlotSumRelease(mb, MsgSlot(t.mrpos), MSG_RANGE);
      var t' := t.(mrpos := t.mrpos + 1, mspos := if t.mspos == t.mrpos then t.mspos + 1 else t.mspos);
      SlotSumIsUnacked(mb[MsgSlot(t.mrpos) := None], t');
    }
  }

  lemma GapPositive(a: int, b: int)
    requires Gap(a, b) > 0
    ensures a != b
  {
  }

  lemma GapOfShifted(c: int, a: int, b: int)
    ensures Gap(c + U16(a), U16(b)) == Gap(c + a, b)
  {
    assert c + U16(a) - U16(b) == (c + a - b) - WRAP * (a / WRAP - b / WRAP);
    ModShift(c + a - b, a / WRAP - b / WRAP);
  }

  lemma MsgSlotOfWrapped(i: int)
    ensures MsgSlot(U16(i)) == MsgSlot(i)
  {
    MsgSlotShift(U16(i), 8192 * (i / WRAP));
  }

  lemma MsgSlotShift(n: int, q: int)
    ensures MsgSlot(n + MSG_RANGE * q) == MsgSlot(n)
  {
    var r := n + MSG_RANGE * q;
    assert n == MSG_RANGE * (r / MSG_RANGE - q) + r % MSG_RANGE;
  }

  /** A datagram sets off fast retransmission. */
  ghost predicate HurriedBy(e: Endpoint, d: Datagram)
    requires Ring(e.rx)
  {
    Listens(e, d) && Hurries(e.tx, AckIn(d).value)
  }

  // ---------------------------------------------------------------- the walk of fast retransmission

  /** After `j` serials of the walk: what must have been tried was, and is counted. */
  ghost predicate Walked(t: Tx, tries: seq<nat>, sn: nat, touched: set<nat>, tries': seq<nat>, j: nat) {
    && |tries| == |t.out| && Touchable(t, touched) && Recounted(t, tries, sn, touched, tries')
    && (forall n :: n in touched ==> n < |tries| && tries[n] < 2)
    && (forall n :: t.rpos <= n < |t.out| && n < t.rpos + j && t.out[n].waiting && tries[n] < 2 ==> n in touched)
    && (Gap(sn, t.rpos) <= RANGE ==> forall n :: n in touched ==> n < t.rpos + j)
  }

  lemma RefreshSame(t: Tx, touched: set<nat>, pos: nat)
    ensures var u := Refresh(t, touched, pos);
      && u.rpos == t.rpos && |u.out| == |t.out| && forall n :: 0 <= n < |t.out| ==> u.out[n].waiting == t.out[n].waiting
  {
  }

  lemma GapNone(x: nat)
    ensures Gap(x, x) == 0
  {
  }

  lemma LoadedPlace(e: Endpoint)
    requires Ready(e.tx)
    ensures Loaded(e).spos == e.tx.spos && |Loaded(e).out| >= |e.tx.out|
  {
  }

  /** While the walk does not go round the ring, the packet that went out is the one the socket took,
      and it took no other. */
  ghost predicate Obeyed(t: Tx, sn: nat, touched: set<nat>, which: Option<nat>, accepts: nat -> bool) {
    Gap(sn, t.rpos) <= RANGE ==> forall n :: n in touched ==> (accepts(U16(n)) <==> which == Some(n))
  }

  lemma NoneTaken(t: Tx, sn: nat, accepts: nat -> bool)
    ensures Obeyed(t, sn, {}, None, accepts)
  {
  }

  lemma NextAnswer(t: Tx, tries: seq<nat>, sn: nat, touched: set<nat>, tries': seq<nat>, n: nat, j: nat,
      accepts: nat -> bool)
    requires Walked(t, tries, sn, touched, tries', j) && Obeyed(t, sn, touched, None, accepts)
    requires j < Gap(sn, t.rpos) && (j < RANGE ==> n == t.rpos + j)
    ensures Obeyed(t, sn, touched + {n}, if accepts(U16(t.rpos + j)) then Some(n) else None, accepts)
  {
    hide Gap, U16, Recounted;
  }

  lemma WalkStarts(t: Tx, tries: seq<nat>, sn: nat)
    requires |tries| == |t.out|
    ensures Walked(t, tries, sn, {}, tries, 0) && Touchable(t, {})
  {
  }

  lemma WalkTries(t: Tx, tries: seq<nat>, sn: nat, touched: set<nat>, tries': seq<nat>, j: nat, n: nat)
    requires Walked(t, tries, sn, touched, tries', j) && t.rpos <= n < |t.out| <= t.rpos + RANGE
    requires j < Gap(sn, t.rpos) && (j < RANGE ==> n == t.rpos + j) && t.out[n].waiting && tries'[n] < 2
    ensures Walked(t, tries, sn, touched + {n}, tries'[n := tries'[n] + 1], j + 1)
    ensures Tried(t, tries, sn, touched + {n}, Some(n)) && Scanned(t, sn, touched + {n})
    ensures Touchable(t, touched + {n}) && Recounted(t, tries, sn, touched + {n}, tries'[n := tries'[n] + 1])
  {
    hide Gap;
  }

  lemma WalkSkips(t: Tx, tries: seq<nat>, sn: nat, touched: set<nat>, tries': seq<nat>, j: nat)
    requires Walked(t, tries, sn, touched, tries', j) && |t.out| <= t.rpos + RANGE
    requires t.rpos + j < |t.out| ==> !t.out[t.rpos + j].waiting || tries'[t.rpos + j] >= 2
    ensures Walked(t, tries, sn, touched, tries', j + 1)
  {
    hide Gap;
  }

  lemma WalkEnds(t: Tx, tries: seq<nat>, sn: nat, touched: set<nat>, tries': seq<nat>, j: nat)
    requires Walked(t, tries, sn, touched, tries', j) && j == Gap(sn, t.rpos)
    ensures Tried(t, tries, sn, touched, None) && Recounted(t, tries, sn, touched, tries')
    ensures Scanned(t, sn, touched)
  {
    hide Gap;
  }
}
