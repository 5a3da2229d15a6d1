/** Two runs in which something goes astray: a repeated header still acknowledges the serial it
    acknowledged when it was first sent. */
module StrayRuns {
  import opened Common
  import opened Serial
  import opened Segmentation
  import opened Sender
  import opened Receiver
  import opened Protocol
  import opened Progress
  import opened Marks
  import opened Ahead
  import opened Scenes

  lemma PathIsRun(p: seq<Net>, z: Net)
    requires Path(p, First, z)
    ensures Run(p) && p[|p| - 1] == z
  {
    FirstStarts();
  }

  /** x hears y's repeated packet. */
  lemma {:induction false} HearRepeated(s: Net, d: Datagram, touched: set<nat>, again: Option<nat>) returns (z: Net)
    requires Inv(s) && d in s.yx && d.Data? && d.sn == s.x.rx.pos == 0 && d.carried.Some?
    requires NotStale(s.x.tx.rpos, s.x.tx.spos, d.carried.value.pos)
    requires Ready(s.x.tx) && Ring(s.x.rx) && MayHurry(s.x, d, touched, again)
    ensures Path([s, z], s, z) && Inv(z) && z.y == s.y
    ensures z.x.tx == Hear(s.x, d.carried.value, touched).tx
    ensures z.xy == s.xy + Sent(Hurried(z.x, again))
  {
    hide Inv, Flow, TxInv, RxInv, Truthful, Take, Hear, MayHurry, Hurried;
    var x' := Receive(s.x, d, touched);
    z := s.(x := x', xy := s.xy + Sent(Hurried(x', again)));
    assert StepX(s, z, Deliver(d, touched, again));
    NextKeepsInv(s, z);
    PathStep(s, z);
  }

  // ---------------------------------------------------------------- marked, but not there

  /** The opening, then 65535 more packets from x, all answered; two more that are lost; then y
      repeats its packet, which x never got. Its header now acknowledges serial 1 at position
      65536. Serial 1 looks like serial 65537, and packet 65537 is marked as arrived. */
  lemma {:induction false} FalselyMarked() returns (p: seq<Net>, z: Net)
    ensures Run(p) && p[|p| - 1] == z && Ring(z.y.rx) && |z.x.tx.out| == WRAP + 2
    ensures !z.x.tx.out[WRAP + 1].waiting && !Held(z.y.rx, WRAP + 1)
  {
    hide Inv, Path, AllEmpty, TxInv, Run, Hear, MayHurry, Held, RxInv, Truthful;
    var p0, s := Opening();
    var p1, a := Answer(s);
    PathLength(p1, s, a);
    PathJoin(p0, p1, First, s, a);
    SlotsKept(s.y.rx, a.y.rx);
    var p2, b := Exchanges(a, WRAP - 1);
    PathLength(p2, a, b);
    var q2 := p0 + p1[1..];
    PathJoin(q2, p2, First, a, b);
    var p3, c, _ := Push(b);
    PathLength(p3, b, c);
    var q3 := q2 + p2[1..];
    PathJoin(q3, p3, First, b, c);
    var p4, e, _ := Push(c);
    PathLength(p4, c, e);
    var q4 := q3 + p3[1..];
    PathJoin(q4, p4, First, c, e);
    MirrorInv(e);
    var f, d := Repeat(Mirror(e));
    var m := MirrorPath([Mirror(e), f], Mirror(e), f);
    var g := Mirror(f);
    MirrorInv(f);
    var q5 := q4 + p4[1..];
    PathJoin(q5, m, First, e, g);
    var q6 := q5 + m[1..];
    FlowParts(g);
    Progress.Rings(g);
    NoHurry(g.x, d);
    z := HearRepeated(g, d, {}, None);
    PathJoin(q6, [g, z], First, g, z);
    p := q6 + [g, z][1..];
    PathIsRun(p, z);
    StaleMark(g.x, d.carried.value);
    SlotsKept(b.y.rx, z.y.rx);
    NotThere(z.y.rx);
  }

  lemma NoHurry(e: Endpoint, d: Datagram)
    requires Ready(e.tx) && Ring(e.rx)
    ensures MayHurry(e, d, {}, None)
  {
    hide Acked, Hurries;
  }

  /** Serial 1 is one round behind serial 65537. */
  lemma StaleMark(e: Endpoint, a: Ack)
    requires TxInv(e.tx) && Ready(e.tx) && e.tx.rpos == WRAP && e.tx.spos == |e.tx.out| == WRAP + 2
        && a == Ack(1, WRAP)
    ensures |Hear(e, a, {}).tx.out| == WRAP + 2 && !Hear(e, a, {}).tx.out[WRAP + 1].waiting
  {
    hide TxInv;
    var t := e.tx;
    assert Admits(t, a);
    assert Advance(t, a) == 0;
    assert Occupant(|t.out|, 1) == WRAP + 1;
    assert U16(a.sn) != U16(a.pos);
    assert AckTo(t, 0) == t;
  }

  lemma NotThere(r: Rx)
    requires AllEmpty(r) && r.pos == WRAP
    ensures !Held(r, WRAP + 1)
  {
  }

  // ---------------------------------------------------------------- received, but not launched

  /** The opening, then x launches packet 1 and has packet 2 serialised behind it; packet 1
      arrives, and y repeats its packet, which x never got. Its header now acknowledges serial 1
      at position 2: x releases both, finds the distance from 2 to 1 larger than three, and tries
      packet 2, which it never launched. It arrives. */
  lemma {:induction false} ReceiverAhead() returns (p: seq<Net>, z: Net)
    ensures Run(p) && p[|p| - 1] == z && z.y.rx.pos == 3 && z.x.tx.spos == 2
  {
    hide Inv, Path, AllEmpty, TxInv, Run, Hear, MayHurry, RxInv, Truthful;
    var p0, s := Opening();
    var p1, a, d1 := PushTwo(s);
    PathLength(p1, s, a);
    PathJoin(p0, p1, First, s, a);
    var q1 := p0 + p1[1..];
    var b := Land(a, d1);
    PathJoin(q1, [a, b], First, a, b);
    var q2 := q1 + [a, b][1..];
    MirrorInv(b);
    var c, d := Repeat(Mirror(b));
    var m := MirrorPath([Mirror(b), c], Mirror(b), c);
    MirrorInv(c);
    var e := Mirror(c);
    PathJoin(q2, m, First, b, e);
    var q3 := q2 + m[1..];
    FlowParts(e);
    Progress.Rings(e);
    TriesUnlaunched(e.x, d);
    var f := HearRepeated(e, d, {2}, Some(2));
    PathJoin(q3, [e, f], First, e, f);
    var q4 := q3 + [e, f][1..];
    SlotsKept(b.y.rx, f.y.rx);
    z := Land(f, Outgoing(f.x.tx, 2));
    PathJoin(q4, [f, z], First, f, z);
    p := q4 + [f, z][1..];
    PathIsRun(p, z);
  }

  /** Two packets launched, a third one serialised, and an acknowledgement of serial 1 at
      position 2. */
  lemma TriesUnlaunched(e: Endpoint, d: Datagram)
    requires TxInv(e.tx) && Ready(e.tx) && Ring(e.rx) && e.rx.pos == 0
    requires e.tx.rpos == 0 && e.tx.spos == 2 && |e.tx.out| == 3 && e.tx.out[2].waiting && e.tx.out[2].ack == None
    requires d.Data? && d.sn == 0 && d.carried == Some(Ack(1, 2))
    ensures MayHurry(e, d, {2}, Some(2))
    ensures var t := Hear(e, Ack(1, 2), {2}).tx; |t.out| == 3 && t.spos == 2 && t.out[2].ack == None
  {
    hide TxInv;
    var t, a := e.tx, Ack(1, 2);
    assert Admits(t, a) && Advance(t, a) == 2;
    assert Gap(a.sn, 2) == WRAP - 1 && Hurries(t, a);
    assert Occupant(3, 1) == 1;
    AckToInv(t, 2);
    AckedInv(t, a);
  }
}
