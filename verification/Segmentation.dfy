/** Cutting messages into packets (xmsg_fixed, xchannel_serial_msg) and putting them together
    again (xchannel_recv_msg). */
module Segmentation {
  import opened Common

  /** XBODY_SIZE */
  const BODY := 1280

  /** head.range is a uint16_t, the countdown in the frame a uint64_t. */
  const RANGE_WRAP := 0x1_0000
  const COUNT_WRAP := 0x1_0000_0000_0000_0000

  datatype Kind = Req | Msg | Res

  datatype Message = Message(kind: Kind, body: seq<Byte>)

  /** The part of a packet that never changes once it is serialised. */
  datatype Packet = Packet(kind: Kind, range: nat, body: seq<Byte>)

  // ---------------------------------------------------------------- cutting

  /** xmsg_fixed: the number of packets of a message of `len` bytes. */
  function PackCount(len: nat): (r: nat)
    ensures 1 <= r
    ensures len <= r * BODY
    ensures len > 0 ==> (r - 1) * BODY < len
  {
    if len > 0 then
      if len / BODY * BODY < len then len / BODY + 1 else len / BODY
    else 1
  }

  function Count(m: Message): nat { PackCount(|m.body|) }

  /** Bytes carried by the first `k` packets of a message. */
  function Consumed(m: Message, k: nat): (r: nat)
    ensures r <= |m.body|
  {
    if k * BODY < |m.body| then k * BODY else |m.body|
  }

  /** The `k`-th packet of a message; its header counts down the packets that are left. */
  function PacketOf(m: Message, k: nat): Packet
    requires k < Count(m)
  {
    Packet(m.kind, (Count(m) - k) % RANGE_WRAP, m.body[Consumed(m, k)..Consumed(m, k + 1)])
  }

  function Cut(m: Message): (ps: seq<Packet>)
    ensures |ps| == Count(m)
  {
    seq(Count(m), k requires 0 <= k < Count(m) => PacketOf(m, k))
  }

  function CutAll(ms: seq<Message>): (ps: seq<Packet>)
    ensures |ps| >= |ms|
  {
    if ms == [] then [] else CutAll(ms[..|ms| - 1]) + Cut(ms[|ms| - 1])
  }

  /** Serial of the first packet of message `i`. */
  function Base(ms: seq<Message>, i: nat): nat
    requires i <= |ms|
  {
    |CutAll(ms[..i])|
  }

  lemma CutAllSnoc(ms: seq<Message>, m: Message)
    ensures CutAll(ms + [m]) == CutAll(ms) + Cut(m)
  {
    assert (ms + [m])[..|ms|] == ms;
  }

  lemma BaseStep(ms: seq<Message>, i: nat)
    requires i < |ms|
    ensures Base(ms, i + 1) == Base(ms, i) + Count(ms[i])
    ensures CutAll(ms[..i + 1]) == CutAll(ms[..i]) + Cut(ms[i])
  {
    assert ms[..i + 1] == ms[..i] + [ms[i]];
    CutAllSnoc(ms[..i], ms[i]);
  }

  lemma {:induction false} BaseMonotone(ms: seq<Message>, i: nat, j: nat)
    requires i <= j <= |ms|
    ensures Base(ms, i) <= Base(ms, j)
    ensures Base(ms, i) + j - i <= Base(ms, j)
    ensures CutAll(ms[..i]) <= CutAll(ms[..j])
    decreases j
  {
    hide PackCount, CutAll;
    if i < j {
      BaseMonotone(ms, i, j - 1);
      BaseStep(ms, j - 1);
    }
  }

  /** The packets of the first `i` messages are a prefix of the stream. */
  lemma StreamPrefix(ms: seq<Message>, i: nat)
    requires i <= |ms|
    ensures Base(ms, i) <= |CutAll(ms)|
    ensures CutAll(ms)[..Base(ms, i)] == CutAll(ms[..i])
    ensures i == |ms| ==> Base(ms, i) == |CutAll(ms)|
  {
    BaseMonotone(ms, i, |ms|);
    assert ms[..|ms|] == ms;
  }

  lemma StreamPart(ms: seq<Message>, i: nat, k: nat)
    requires i < |ms| && k <= Count(ms[i])
    ensures Base(ms, i) + k <= |CutAll(ms)|
    ensures CutAll(ms)[..Base(ms, i) + k] == CutAll(ms[..i]) + Cut(ms[i])[..k]
  {
    BaseStep(ms, i);
    StreamPrefix(ms, i + 1);
    var n := Base(ms, i) + k;
    assert CutAll(ms)[..n] == CutAll(ms)[..Base(ms, i + 1)][..n];
  }

  /** Random access: packet `k` of message `i` is number Base(i) + k of the stream. */
  lemma PacketAt(ms: seq<Message>, i: nat, k: nat)
    requires i < |ms| && k < Count(ms[i])
    ensures Base(ms, i) + k < |CutAll(ms)|
    ensures CutAll(ms)[Base(ms, i) + k] == PacketOf(ms[i], k)
  {
    StreamPart(ms, i, k + 1);
    var n := Base(ms, i) + k;
    assert CutAll(ms)[n] == CutAll(ms)[..n + 1][n] == Cut(ms[i])[..k + 1][k];
  }

  /** Queueing one more message leaves every earlier packet where it was. */
  lemma BaseOfLonger(ms: seq<Message>, m: Message, i: nat)
    requires i <= |ms|
    ensures Base(ms + [m], i) == Base(ms, i)
  {
    assert (ms + [m])[..i] == ms[..i];
  }

  // ---------------------------------------------------------------- reassembly

  /** channel->msg: none, a frame being filled, or (undefined behaviour of the program) a frame
      written past the `range * XBODY_SIZE` bytes allocated for it. */
  datatype Assembly =
    | Idle
    | Partial(kind: Kind, left: nat, size: nat, body: seq<Byte>)
    | Overflow

  datatype Fed = Fed(asm: Assembly, done: seq<Message>)

  /** One turn of the do-while loop of xchannel_recv_msg. */
  function Feed(a: Assembly, p: Packet): Fed {
    match a
    case Overflow => Fed(Overflow, [])
    case Idle => Put(Partial(p.kind, p.range, p.range * BODY, []), p)
    case Partial(_, _, _, _) => Put(a, p)
  }

  function Put(a: Assembly, p: Packet): Fed
    requires a.Partial?
  {
    if |a.body| + |p.body| > a.size then Fed(Overflow, [])
    else
      var left := (a.left - 1) % COUNT_WRAP;
      if left == 0 then Fed(Idle, [Message(a.kind, a.body + p.body)])
      else Fed(Partial(a.kind, left, a.size, a.body + p.body), [])
  }

  function FeedAll(a: Assembly, ps: seq<Packet>): Fed {
    if ps == [] then Fed(a, [])
    else
      var before := FeedAll(a, ps[..|ps| - 1]);
      var last := Feed(before.asm, ps[|ps| - 1]);
      Fed(last.asm, before.done + last.done)
  }

  lemma FeedSnoc(a: Assembly, ps: seq<Packet>, p: Packet)
    ensures FeedAll(a, ps + [p]) ==
            var f := FeedAll(a, ps); var g := Feed(f.asm, p); Fed(g.asm, f.done + g.done)
  {
    assert (ps + [p])[..|ps|] == ps;
  }

  lemma {:induction false} FeedConcat(a: Assembly, ps: seq<Packet>, qs: seq<Packet>)
    ensures FeedAll(a, ps + qs) ==
            var f := FeedAll(a, ps); var g := FeedAll(f.asm, qs); Fed(g.asm, f.done + g.done)
    decreases |qs|
  {
    hide Feed;
    if qs == [] {
      assert ps + qs == ps;
    } else {
      var q := qs[|qs| - 1];
      var rest := qs[..|qs| - 1];
      FeedConcat(a, ps, rest);
      assert ps + qs == (ps + rest) + [q];
      FeedSnoc(a, ps + rest, q);
    }
  }

  /** A message fits when its packet count survives the 16-bit header field. */
  predicate Fits(m: Message) { Count(m) < RANGE_WRAP }

  predicate AllFit(ms: seq<Message>) { forall i :: 0 <= i < |ms| ==> Fits(ms[i]) }

  /** State after `k` packets of `m`, as long as the truncated countdown has not run out. */
  function Filled(m: Message, k: nat): Assembly {
    var total := Count(m) % RANGE_WRAP;
    if k == 0 || total <= k then Idle
    else Partial(m.kind, total - k, total * BODY, m.body[..Consumed(m, k)])
  }

  lemma BodyGrows(m: Message, k: nat)
    ensures Consumed(m, k) <= Consumed(m, k + 1)
    ensures Consumed(m, k + 1) - Consumed(m, k) <= BODY
    ensures m.body[..Consumed(m, k)] + m.body[Consumed(m, k)..Consumed(m, k + 1)]
         == m.body[..Consumed(m, k + 1)]
  {
  }

  lemma FeedNext(m: Message, k: nat)
    requires k < Count(m) % RANGE_WRAP
    ensures Feed(Filled(m, k), PacketOf(m, k)) ==
            Fed(Filled(m, k + 1),
                if k + 1 == Count(m) % RANGE_WRAP
                then [Message(m.kind, m.body[..Consumed(m, k + 1)])] else [])
  {
    BodyGrows(m, k);
  }

  /** Feeding the first `k` packets: when the countdown runs out, the receiver reports what it
      has gathered so far. */
  lemma {:induction false} FeedPart(m: Message, k: nat)
    requires k <= Count(m) % RANGE_WRAP
    ensures FeedAll(Idle, Cut(m)[..k]) ==
            Fed(Filled(m, k),
                if k > 0 && k == Count(m) % RANGE_WRAP
                then [Message(m.kind, m.body[..Consumed(m, k)])] else [])
    decreases k
  {
    hide PackCount, Put;
    if k > 0 {
      FeedPart(m, k - 1);
      CutTake(m, k);
      FeedSnoc(Idle, Cut(m)[..k - 1], PacketOf(m, k - 1));
      FeedNext(m, k - 1);
    }
  }

  lemma CutTake(m: Message, k: nat)
    requires 0 < k <= Count(m)
    ensures Cut(m)[..k] == Cut(m)[..k - 1] + [PacketOf(m, k - 1)]
  {
  }

  lemma FeedWhole(m: Message)
    requires Fits(m)
    ensures FeedAll(Idle, Cut(m)) == Fed(Idle, [m])
  {
    hide FeedAll;
    var n := Count(m);
    hide PackCount;
    assert n % RANGE_WRAP == n;
    FeedPart(m, n);
    assert Cut(m)[..n] == Cut(m);
    assert m.body[..Consumed(m, n)] == m.body;
  }

  lemma ReassembleNone()
    ensures FeedAll(Idle, CutAll([])) == Fed(Idle, [])
  {
  }

  lemma ReassembleOneMore(ms: seq<Message>, m: Message)
    requires FeedAll(Idle, CutAll(ms)) == Fed(Idle, ms)
    requires Fits(m)
    ensures FeedAll(Idle, CutAll(ms + [m])) == Fed(Idle, ms + [m])
  {
    hide PackCount, FeedAll, CutAll;
    CutAllSnoc(ms, m);
    FeedConcat(Idle, CutAll(ms), Cut(m));
    FeedWhole(m);
  }

  /** Reassembly undoes cutting: same messages, same boundaries, same types, no overflow. */
  lemma {:induction false} ReassembleAll(ms: seq<Message>)
    requires AllFit(ms)
    ensures FeedAll(Idle, CutAll(ms)) == Fed(Idle, ms)
    decreases |ms|
  {
    hide PackCount, FeedAll, CutAll;
    if ms == [] {
      ReassembleNone();
    } else {
      var rest := ms[..|ms| - 1];
      ReassembleAll(rest);
      ReassembleOneMore(rest, ms[|ms| - 1]);
      assert rest + [ms[|ms| - 1]] == ms;
    }
  }

  /** Any prefix of the packet stream gives exactly the messages whose last packet it holds. */
  lemma ReassemblePrefix(ms: seq<Message>, i: nat, k: nat)
    requires AllFit(ms) && i <= |ms|
    requires if i < |ms| then k < Count(ms[i]) else k == 0
    ensures Base(ms, i) + k <= |CutAll(ms)|
    ensures var f := FeedAll(Idle, CutAll(ms)[..Base(ms, i) + k]);
            f.done == ms[..i] && f.asm == if i < |ms| then Filled(ms[i], k) else Idle
  {
    hide PackCount, CutAll, FeedAll;
    StreamPrefix(ms, i);
    assert FeedAll(Idle, CutAll(ms[..i])) == Fed(Idle, ms[..i]) by { ReassembleAll(ms[..i]); }
    if i < |ms| {
      StreamPart(ms, i, k);
      FeedConcat(Idle, CutAll(ms[..i]), Cut(ms[i])[..k]);
      assert FeedAll(Idle, Cut(ms[i])[..k]) == Fed(Filled(ms[i], k), []) by {
        assert Fits(ms[i]);
        FeedPart(ms[i], k);
      }
    }
  }

  lemma {:induction false} OverflowStays(ps: seq<Packet>)
    ensures FeedAll(Overflow, ps) == Fed(Overflow, [])
    decreases |ps|
  {
    if ps != [] { OverflowStays(ps[..|ps| - 1]); }
  }

  /** The first packets of an oversized message already give a wrong message or an overflow. */
  lemma FeedOversized(m: Message, rest: seq<Packet>)
    requires !Fits(m)
    ensures var f := FeedAll(Idle, Cut(m) + rest);
            f == Fed(Overflow, []) || (f.done != [] && f.done[0] != m)
  {
    var k := Count(m) % RANGE_WRAP;
    var ps := Cut(m) + rest;
    if k == 0 {
      var p := PacketOf(m, 0);
      assert ps == [p] + ps[1..];
      assert [p] == [] + [p];
      FeedSnoc(Idle, [], p);
      FeedConcat(Idle, [p], ps[1..]);
      OverflowStays(ps[1..]);
    } else {
      assert ps == Cut(m)[..k] + ps[k..];
      FeedPart(m, k);
      FeedConcat(Idle, Cut(m)[..k], ps[k..]);
    }
  }

  lemma {:induction false} FirstMisfit(ms: seq<Message>) returns (i: nat)
    requires !AllFit(ms)
    ensures i < |ms| && AllFit(ms[..i]) && !Fits(ms[i])
  {
    i := 0;
    while Fits(ms[i])
      invariant i < |ms| && AllFit(ms[..i])
      invariant exists j :: i <= j < |ms| && !Fits(ms[j])
      decreases |ms| - i
    {
      i := i + 1;
    }
  }

  /** Cutting and reassembling is the identity exactly on sequences of messages of at most
      65535 packets each: the header's 16-bit range is the only thing that can break it. */
  lemma RoundTripIffFits(ms: seq<Message>)
    ensures FeedAll(Idle, CutAll(ms)) == Fed(Idle, ms) <==> AllFit(ms)
  {
    hide PackCount, CutAll, FeedAll;
    if AllFit(ms) {
      ReassembleAll(ms);
    } else {
      var i := FirstMisfit(ms);
      StreamPart(ms, i, Count(ms[i]));
      var rest := CutAll(ms)[Base(ms, i) + Count(ms[i])..];
      assert CutAll(ms) == CutAll(ms[..i]) + (Cut(ms[i]) + rest) by {
        assert Cut(ms[i])[..Count(ms[i])] == Cut(ms[i]);
      }
      ReassembleAll(ms[..i]);
      FeedConcat(Idle, CutAll(ms[..i]), Cut(ms[i]) + rest);
      FeedOversized(ms[i], rest);
      var f := FeedAll(Idle, Cut(ms[i]) + rest);
      if f.done != [] {
        assert (ms[..i] + f.done)[i] == f.done[0];
      }
    }
  }
}
