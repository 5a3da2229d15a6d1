/** The 16-bit serial numbers of XLTP.

    A serial is modelled by the unbounded number `n` it stands for.  The code only ever sees
    `U16(n)`; each test below is the test the code makes on 16-bit values, and the lemmas say
    when its answer is the answer on unbounded numbers. */
module Serial {

  const WRAP := 65536

  /** XPACK_SERIAL_RANGE: slots of the send and of the receive ring. */
  const RANGE := 64

  /** Oldest data packet, in serials behind the receiver, that is still recognised as late. */
  const MAX_DATA_LAG := 32768

  /** Oldest acknowledgement, in serials behind the sender, that is still recognised as stale. */
  const MAX_ACK_LAG := WRAP - RANGE - 1

  function U16(n: int): (r: nat)
    ensures r < WRAP
  {
    n % WRAP
  }

  /** (uint16_t)(a - b) */
  function Gap(a: int, b: int): (r: nat)
    ensures r < WRAP
  {
    (a - b) % WRAP
  }

  /** sn & (range - 1) */
  function Slot(n: int): (r: nat)
    ensures r < RANGE
  {
    n % RANGE
  }

  /** The serial that a ring whose oldest live serial is `lo` keeps in slot `i`. */
  function SerialAt(lo: nat, i: int): (n: nat)
    ensures lo <= n < lo + RANGE
    ensures 0 <= i < RANGE ==> Slot(n) == i
  {
    lo + (i - lo) % RANGE
  }

  lemma SerialAtUnique(lo: nat, n: nat)
    requires lo <= n < lo + RANGE
    ensures SerialAt(lo, Slot(n)) == n
  {
  }

  /** Moving the window by one only changes what the freed slot stands for. */
  lemma SerialAtStep(lo: nat, i: nat)
    requires i < RANGE
    ensures SerialAt(lo + 1, i) == if i == Slot(lo) then lo + RANGE else SerialAt(lo, i)
  {
  }

  /** Truncating both operands to 16 bits first changes neither a difference nor a slot. */
  lemma GapOfWrapped(a: int, b: int)
    ensures Gap(U16(a), U16(b)) == Gap(a, b)
  {
    assert U16(a) - U16(b) == (a - b) - WRAP * (a / WRAP - b / WRAP);
    ModShift(a - b, a / WRAP - b / WRAP);
  }

  lemma ModShift(x: int, q: int)
    ensures (x - WRAP * q) % WRAP == x % WRAP
  {
    var r := x - WRAP * q;
    assert x == WRAP * (r / WRAP + q) + r % WRAP;
  }

  lemma WrapEquals(a: int, b: int)
    ensures U16(a) == U16(b) <==> Gap(a, b) == 0
  {
    GapOfWrapped(a, b);
  }

  lemma WrapStep(a: int)
    ensures U16(U16(a) + 1) == U16(a + 1)
  {
    assert U16(a) + 1 == (a + 1) - WRAP * (a / WRAP);
    ModShift(a + 1, a / WRAP);
  }

  lemma SlotOfWrapped(a: int)
    ensures Slot(U16(a)) == Slot(a)
  {
    SlotShift(U16(a), 1024 * (a / WRAP));
  }

  lemma SlotShift(n: int, q: int)
    ensures Slot(n + RANGE * q) == Slot(n)
  {
    var r := n + RANGE * q;
    assert n == RANGE * (r / RANGE - q) + r % RANGE;
  }

  /** Which of the three branches of xchannel_recv_pack a serial takes. */
  datatype Arrival = Exact | Early | Late

  function Arrive(wpos: nat, sn: nat): Arrival {
    if U16(sn) == U16(wpos) then Exact
    else if Gap(wpos, sn) > Gap(sn, wpos) then Early
    else Late
  }

  /** What the branch is meant to decide. */
  function TrueArrival(wpos: nat, sn: nat): Arrival {
    if sn == wpos then Exact else if sn > wpos then Early else Late
  }

  /** The receiver's 16-bit test is right exactly for packets that are not late, and for those
      that are between 1 and 32768 serials late, whole rounds of the serials aside. */
  lemma ArrivalIff(wpos: nat, sn: nat)
    requires sn < wpos + RANGE
    ensures Arrive(wpos, sn) == TrueArrival(wpos, sn) <==> wpos <= sn || 1 <= Gap(wpos, sn) <= MAX_DATA_LAG
  {
    GapTurned(wpos, sn);
    WrapEquals(wpos, sn);
    if wpos <= sn { assert Gap(sn, wpos) == sn - wpos; }
  }

  lemma GapTurned(a: nat, b: nat)
    ensures Gap(b, a) == if Gap(a, b) == 0 then 0 else WRAP - Gap(a, b)
  {
    var q := (a - b) / WRAP;
    assert b - a == WRAP * (-q - 1) + (WRAP - Gap(a, b));
    ModShift(b - a, -q - 1);
    ModShift(b - a, -q);
  }

  /** In the first round that is: at most 32768 serials late. */
  lemma ArrivalIsExact(wpos: nat, sn: nat)
    requires sn < wpos + RANGE
    requires wpos - sn <= WRAP
    ensures Arrive(wpos, sn) == TrueArrival(wpos, sn) <==> wpos - sn <= MAX_DATA_LAG
  {
  }

  /** The sender's window test, (uint16_t)(x - rpos) <= (uint16_t)(spos - rpos). */
  predicate InWindow(rpos: nat, spos: nat, x: nat) {
    Gap(x, rpos) <= Gap(spos, rpos)
  }

  /** The position `x` is not so old that it looks new in this window. */
  predicate NotStale(rpos: nat, spos: nat, x: nat) { rpos - x < WRAP - (spos - rpos) }

  /** The sender's test is the test on unbounded serials exactly for positions that are not behind
      the window, and for those that are behind it, whole rounds of the serials aside, by at least
      one and less than a round but for the window. In the first round that is: not stale. Then it
      measures the true distance. */
  lemma WindowIff(rpos: nat, spos: nat, x: nat)
    requires rpos <= spos <= rpos + RANGE
    requires x <= rpos + RANGE
    ensures (InWindow(rpos, spos, x) <==> rpos <= x <= spos) <==>
            rpos <= x || 1 <= Gap(rpos, x) < WRAP - (spos - rpos)
    ensures NotStale(rpos, spos, x) ==> (InWindow(rpos, spos, x) <==> rpos <= x <= spos)
    ensures NotStale(rpos, spos, x) && InWindow(rpos, spos, x) ==> Gap(x, rpos) == x - rpos
  {
    GapTurned(rpos, x);
    assert Gap(spos, rpos) == spos - rpos;
    if rpos <= x { assert Gap(x, rpos) == x - rpos; }
  }

  /** 65471 serials is what every window tolerates, and no more. */
  lemma LagIsSharp(rpos: nat, x: nat)
    ensures (forall spos :: rpos <= spos <= rpos + RANGE ==> NotStale(rpos, spos, x)) <==>
            rpos - x <= MAX_ACK_LAG
  {
    assert NotStale(rpos, rpos + RANGE, x) <==> rpos - x <= MAX_ACK_LAG;
  }
}
