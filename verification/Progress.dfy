/** The protocol never gets stuck: from every state of every run, whatever was lost so far, some
    continuation delivers and reports every queued message. */
module Progress {
  import opened Common
  import opened Serial
  import opened Segmentation
  import opened Sender
  import opened Receiver
  import opened Protocol
  import opened Delivery

  /** `p` leads from `s` to `z` by steps of the system. */
  ghost predicate Path(p: seq<Net>, s: Net, z: Net) {
    |p| > 0 && p[0] == s && p[|p| - 1] == z && forall i :: 0 <= i < |p| - 1 ==> Next(p[i], p[i + 1])
  }

  lemma PathOne(s: Net)
    ensures Path([s], s, s)
  {}

  lemma PathStep(s: Net, z: Net)
    requires Next(s, z)
    ensures Path([s, z], s, z)
  {}

  lemma PathJoin(p: seq<Net>, q: seq<Net>, s: Net, m: Net, z: Net)
    requires Path(p, s, m) && Path(q, m, z)
    ensures Path(p + q[1..], s, z)
  {
    hide Next;
    var r := p + q[1..];
    forall i | 0 <= i < |r| - 1 ensures Next(r[i], r[i + 1]) {
      if i >= |p| - 1 {
        assert r[i] == q[i - |p| + 1] && r[i + 1] == q[i - |p| + 2];
      }
    }
  }

  lemma MirrorPath(p: seq<Net>, s: Net, z: Net) returns (q: seq<Net>)
    requires Path(p, s, z)
    ensures Path(q, Mirror(s), Mirror(z)) && |q| == |p|
  {
    q := seq(|p|, i requires 0 <= i < |p| => Mirror(p[i]));
    forall i | 0 <= i < |q| - 1 ensures Next(q[i], q[i + 1]) {
      assert Next(p[i], p[i + 1]);
      MirrorNext(p[i], p[i + 1]);
    }
  }

  /** The same messages to send on both sides, and nothing the peer was acknowledged is taken back. */
  ghost predicate SameJob(s: Net, z: Net) {
    && Msgs(z.x.tx.frames) == Msgs(s.x.tx.frames) && Msgs(z.y.tx.frames) == Msgs(s.y.tx.frames)
    && z.y.tx.rpos >= s.y.tx.rpos
  }

  /** There is nothing to launch. */
  predicate Stalled(e: Endpoint)
    requires Ready(e.tx)
  {
    var t := Loaded(e); Gap(|t.out|, t.spos) == 0
  }

  lemma Rings(s: Net)
    requires Inv(s)
    ensures Ring(s.x.rx) && Ring(s.y.rx) && Ready(s.x.tx) && Ready(s.y.tx)
  {
    hide TxInv, FeedAll;
    InvReady(s.x.tx);
    InvReady(s.y.tx);
  }

  lemma GapIs(a: nat, b: nat)
    requires b <= a <= b + RANGE
    ensures Gap(a, b) == a - b
  {}

  lemma {:induction false} LaunchOne(s: Net) returns (z: Net)
    requires Inv(s)
    ensures Ready(s.x.tx) && Path([s, z], s, z) && Inv(z) && SameJob(s, z) && z.y == s.y && z.yx == s.yx
    ensures z.x.tx.rpos == s.x.tx.rpos && z.x.tx.spos == s.x.tx.spos + if Stalled(s.x) then 0 else 1
  {
    hide Inv, Flow, TxInv, RxInv, Evolves;
    FlowParts(s);
    Rings(s);
    z := s.(x := SendPack(s.x, true), xy := s.xy + Sent(SentPack(s.x, true)));
    assert StepX(s, z, Transmit(true));
    NextKeepsInv(s, z);
    PathStep(s, z);
    SendKeepsMsgs(s.x);
  }

  lemma SendKeepsMsgs(e: Endpoint)
    requires Ready(e.tx)
    ensures Msgs(SendPack(e, true).tx.frames) == Msgs(e.tx.frames) && SendPack(e, true).tx.rpos == e.tx.rpos
    ensures SendPack(e, true).tx.spos == e.tx.spos + if Stalled(e) then 0 else 1
  {
    var t := Loaded(e);
    assert Msgs(t.frames) == Msgs(e.tx.frames);
    assert Msgs(SendPack(e, true).tx.frames) == Msgs(t.frames);
  }

  /** Sending until the window is full or nothing is left to send. */
  lemma {:induction false} Fill(s: Net) returns (p: seq<Net>, z: Net)
    requires Inv(s)
    ensures Path(p, s, z) && Inv(z) && SameJob(s, z) && z.y == s.y && z.yx == s.yx
    ensures z.x.tx.rpos == s.x.tx.rpos && Ready(z.x.tx) && Stalled(z.x)
    decreases s.x.tx.rpos + RANGE - s.x.tx.spos
  {
    hide Inv, Flow, TxInv, RxInv, Truthful, Stalled;
    FlowParts(s);
    if Stalled(s.x) {
      z, p := s, [s];
      PathOne(s);
    } else {
      var m := LaunchOne(s);
      FlowParts(m);
      var q;
      q, z := Fill(m);
      p := [s, m] + q[1..];
      PathJoin([s, m], q, s, m, z);
    }
  }

  /** A sender with nothing to launch has launched all it serialised, and has a full window or
      no packet left. */
  lemma StalledMeans(e: Endpoint)
    requires TxInv(e.tx) && Ready(e.tx) && Stalled(e)
    ensures e.tx.spos == |e.tx.out|
    ensures |e.tx.out| == e.tx.rpos + RANGE || |e.tx.out| == |CutAll(Msgs(e.tx.frames))|
  {
    hide FramesAt, PacksOk, CountsOk, CutAll, Base, PackCount;
    var t := e.tx;
    GapIs(|t.out|, t.spos);
    GapIs(RANGE + t.rpos, |t.out|);
    assert Gap(|t.frames|, t.mspos) == |t.frames| - t.mspos;
    assert |Serialise(t).out| == |t.out| + if |t.out| < t.rpos + RANGE && t.mspos < |t.frames| then 1 else 0;
    StreamPrefix(Msgs(t.frames), |t.frames|);
  }

  /** The oldest packet is repeated. */
  lemma {:induction false} RepeatOldest(s: Net) returns (z: Net, d: Datagram)
    requires Inv(s) && s.x.tx.rpos < s.x.tx.spos
    ensures Path([s, z], s, z) && Inv(z) && SameJob(s, z) && z.y == s.y
    ensures z.x.tx.rpos == s.x.tx.rpos && z.x.tx.spos == s.x.tx.spos && |z.x.tx.out| == |s.x.tx.out|
    ensures d in z.xy && d.Data? && d.sn == s.x.tx.rpos
    ensures d.carried == Renew(s.x.tx.out[s.x.tx.rpos].ack, s.x.rx.pos) && z.x.rx == s.x.rx
    ensures z.yx == s.yx && s.xy <= z.xy && forall n ::
        0 <= n < |z.x.tx.out| ==> z.x.tx.out[n].pack == s.x.tx.out[n].pack
  {
    hide Inv, Flow, TxInv, RxInv, FeedAll, Evolves;
    Rings(s);
    z := s.(x := Resend(s.x), xy := s.xy + Sent(Resent(s.x, true)));
    assert StepX(s, z, Timeout(true));
    GapIs(s.x.tx.spos, s.x.tx.rpos);
    d := Outgoing(z.x.tx, s.x.tx.rpos);
    NextKeepsInv(s, z);
    PathStep(s, z);
    FlowParts(s);
  }

  /** It arrives, and the receiver is past it. */
  lemma {:induction false} OldestArrives(s: Net, d: Datagram) returns (z: Net)
    requires Inv(s) && d in s.xy && d.Data? && d.sn == s.x.tx.rpos
    requires d.carried.Some? ==> d.carried.value.pos == s.x.rx.pos
    ensures Path([s, z], s, z) && Inv(z) && SameJob(s, z) && z.x == s.x
    ensures z.y.rx.pos > s.x.tx.rpos && z.y.rx.ack == Ack(z.y.rx.pos, z.y.rx.pos)
  {
    hide Inv, TxInv, RxInv, Truthful, FeedAll, Receive, Take, Held, Follows;
    Rings(s);
    Margins(s);
    z := s.(y := Receive(s.y, d, {}));
    assert s.yx + {} == s.yx;
    assert StepX(Mirror(s), Mirror(z), Deliver(d, {}, None));
    NextKeepsInv(s, z);
    PathStep(s, z);
    ReceiveRx(s.y, d, {});
    PeerKeepsJob(s, d);
    TakesOldest(s, d);
  }

  lemma Margins(s: Net)
    requires Inv(s)
    ensures s.x.tx.rpos <= s.y.rx.pos <= |s.x.tx.out| <= s.x.tx.rpos + RANGE
    ensures s.y.tx.rpos <= s.x.rx.pos && s.y.tx.rpos <= s.y.tx.spos <= s.y.tx.rpos + RANGE
  {
    hide FramesAt, PacksOk, CountsOk, Within, FeedAll, Truthful;
  }

  lemma PeerKeepsJob(s: Net, d: Datagram)
    requires Inv(s) && Ready(s.y.tx) && Ring(s.y.rx)
    ensures var t := Receive(s.y, d, {}).tx;
      Msgs(t.frames) == Msgs(s.y.tx.frames) && t.rpos >= s.y.tx.rpos
  {
    hide Flow, FeedAll, Take, FramesAt, PacksOk, CountsOk, Within, AckTo;
    assert TxInv(s.y.tx) by { PeerTx(s); }
    if Listens(s.y, d) { AckedInv(s.y.tx, AckIn(d).value); }
  }

  lemma PeerTx(s: Net)
    requires Inv(s)
    ensures TxInv(s.y.tx)
  {}

  lemma TakesOldest(s: Net, d: Datagram)
    requires Inv(s) && d in s.xy && d.Data? && d.sn == s.x.tx.rpos && Ring(s.y.rx)
    ensures var r := Take(s.y.rx, d.sn, d.pack); r.pos > s.x.tx.rpos && r.ack == Ack(r.pos, r.pos)
  {
    hide FramesAt, PacksOk, CountsOk, Within, FeedAll, Drain;
    Margins(s);
    var r := s.y.rx;
    ArrivalIsExact(r.pos, d.sn);
    TakeFollows(r, Packs(s.x.tx.out), d.sn, d.pack);
  }

  /** The receiver answers. */
  lemma {:induction false} PeerReplies(s: Net) returns (z: Net)
    requires Inv(s)
    ensures Path([s, z], s, z) && Inv(z) && SameJob(s, z) && z.x == s.x && Bare(s.y.rx.ack) in z.yx
    ensures z.y.rx.pos == s.y.rx.pos
  {
    hide Inv, Flow, TxInv, RxInv, Truthful, FeedAll;
    Rings(s);
    z := s.(y := s.y.(rx := s.y.rx.(pending := false)), yx := s.yx + {Bare(s.y.rx.ack)});
    assert StepX(Mirror(s), Mirror(z), Reply(true));
    NextKeepsInv(s, z);
    PathStep(s, z);
  }

  /** The answer moves the window. */
  lemma {:induction false} AnswerArrives(s: Net, q: nat) returns (z: Net)
    requires Inv(s) && Bare(Ack(q, q)) in s.yx && s.x.tx.rpos < q <= s.x.tx.spos
    ensures Path([s, z], s, z) && Inv(z) && SameJob(s, z) && z.x.tx.rpos == q
  {
    hide Inv, Flow, TxInv, RxInv, Truthful, FeedAll, AckTo;
    Rings(s);
    var d := Bare(Ack(q, q));
    z := s.(x := Receive(s.x, d, {}));
    assert s.xy + {} == s.xy;
    assert StepX(s, z, Deliver(d, {}, None));
    NextKeepsInv(s, z);
    PathStep(s, z);
    FlowParts(s);
    AckedInv(s.x.tx, Ack(q, q));
    WindowIff(s.x.tx.rpos, s.x.tx.spos, q);
    GapIs(s.x.tx.spos, s.x.tx.rpos);
  }

  /** Five kinds of steps release at least one more packet. */
  lemma {:induction false} Round(s: Net) returns (p: seq<Net>, z: Net)
    requires Inv(s) && s.x.tx.rpos < |CutAll(Msgs(s.x.tx.frames))|
    ensures Path(p, s, z) && Inv(z) && SameJob(s, z) && z.x.tx.rpos > s.x.tx.rpos
  {
    hide Inv, Path, CutAll, Stalled, Ready, TxInv, RxInv, Truthful, Windows;
    var p1, a := Fill(s);
    FlowParts(a);
    StalledMeans(a.x);
    var b, d := RepeatOldest(a);
    PathJoin(p1, [a, b], s, a, b);
    var c := OldestArrives(b, d);
    PathJoin(p1 + [b], [b, c], s, b, c);
    var e := PeerReplies(c);
    PathJoin(p1 + [b] + [c], [c, e], s, c, e);
    Margins(e);
    var q := c.y.rx.pos;
    z := AnswerArrives(e, q);
    PathJoin(p1 + [b] + [c] + [e], [e, z], s, e, z);
    p := p1 + [b] + [c] + [e] + [z];
  }

  /** Enough rounds release everything. */
  lemma {:induction false} Finish(s: Net) returns (p: seq<Net>, z: Net)
    requires Inv(s)
    ensures Path(p, s, z) && Inv(z) && SameJob(s, z) && z.x.tx.rpos == |CutAll(Msgs(s.x.tx.frames))|
    decreases |CutAll(Msgs(s.x.tx.frames))| - s.x.tx.rpos
  {
    hide Inv, Path, CutAll;
    Released(s);
    if s.x.tx.rpos == |CutAll(Msgs(s.x.tx.frames))| {
      PathOne(s);
      p, z := [s], s;
    } else {
      var p1, m := Round(s);
      Released(m);
      var p2;
      p2, z := Finish(m);
      PathLength(p2, m, z);
      PathJoin(p1, p2, s, m, z);
      p := p1 + p2[1..];
    }
  }

  lemma PathLength(p: seq<Net>, s: Net, z: Net)
    requires Path(p, s, z)
    ensures |p| > 0
  {}

  lemma Released(s: Net)
    requires Inv(s)
    ensures s.x.tx.rpos <= |CutAll(Msgs(s.x.tx.frames))|
  {
    hide FramesAt, CountsOk, Within, FeedAll, Truthful, CutAll;
  }

  /** When the last packet is released every message has been reported. */
  lemma AllReported(s: Net)
    requires Inv(s) && s.x.tx.rpos == |CutAll(Msgs(s.x.tx.frames))|
    ensures |s.x.tx.reported| == |s.x.tx.frames|
  {
    hide FramesAt, PacksOk, FeedAll, Truthful, CutAll, Base;
    var ms, m := Msgs(s.x.tx.frames), s.x.tx.mrpos;
    StreamPrefix(ms, |ms|);
    if m < |ms| { StreamPrefix(ms, m + 1); }
  }

  /** Everything queued on one side was reported, and delivered if it fits. */
  ghost predicate Served(t: Tx, r: Rx, ms: seq<Message>) {
    && Msgs(t.frames) == ms && |t.reported| == |ms|
    && (AllFit(ms) ==> r.got == ms)
  }

  /** First one side finishes, then the other. */
  lemma {:induction false} FinishBoth(s: Net) returns (p: seq<Net>, z: Net)
    requires Inv(s)
    ensures Path(p, s, z) && Inv(z)
    ensures Msgs(z.x.tx.frames) == Msgs(s.x.tx.frames) && Msgs(z.y.tx.frames) == Msgs(s.y.tx.frames)
    ensures z.x.tx.rpos == |CutAll(Msgs(z.x.tx.frames))| && z.y.tx.rpos == |CutAll(Msgs(z.y.tx.frames))|
  {
    hide Inv, Path, CutAll;
    var p1, m := Finish(s);
    MirrorInv(m);
    var p2, w := Finish(Mirror(m));
    var q := MirrorPath(p2, Mirror(m), w);
    z := Mirror(w);
    MirrorInv(w);
    PathLength(q, m, z);
    PathJoin(p1, q, s, m, z);
    p := p1 + q[1..];
    Released(z);
  }

  /** From every state of every run, a continuation of the run delivers every message that is queued
      on either side, unchanged and in order, and reports it as sent. */
  lemma EveryRunCanFinish(states: seq<Net>) returns (more: seq<Net>, z: Net)
    requires Run(states)
    ensures Run(states + more) && z == (states + more)[|states + more| - 1]
    ensures var s := states[|states| - 1];
      Served(z.x.tx, z.y.rx, Msgs(s.x.tx.frames)) && Served(z.y.tx, z.x.rx, Msgs(s.y.tx.frames))
  {
    hide Inv, CutAll, Next, AllFit;
    var s := states[|states| - 1];
    RunKeepsInv(states, |states| - 1);
    var p;
    p, z := FinishBoth(s);
    more := p[1..];
    var all := states + more;
    forall i | 0 <= i < |all| - 1 ensures Next(all[i], all[i + 1]) {
      if i >= |states| - 1 { assert all[i] == p[i - |states| + 1] && all[i + 1] == p[i - |states| + 2]; }
    }
    AllReported(z);
    MirrorInv(z);
    AllReported(Mirror(z));
    EveryRunIsSafe(all, |all| - 1);
  }
}
