/**
  Brutal congestion control: a five-slot ring of per-second counts, the acknowledgement rate drawn
  from it, and the window. Times are whole seconds since the sender was built; floating-point
  numbers are reals here, so rounding and saturation are not part of the model.
 */
module Brutal {

  const SLOTS: nat := 5
  const MIN_SAMPLE_COUNT: nat := 50
  const MIN_ACK_RATE: real := 0.8
  const CONGESTION_WINDOW_MULTIPLIER: real := 2.0
  const INITIAL_WINDOW: nat := 10240

  datatype PktInfo = PktInfo(timestamp: nat, acks: nat, losses: nat)

  // ----- the sliding window, by history -----

  /** One recorded batch. */
  datatype Sample = Sample(second: nat, acks: nat, losses: nat)

  predicate Ordered(h: seq<Sample>) {
    forall i, j :: 0 <= i < j < |h| ==> h[i].second <= h[j].second
  }

  /** Acks and losses recorded at seconds from..to, over the whole history. */
  function AcksIn(h: seq<Sample>, from: int, to: int): nat {
    if h == [] then 0
    else AcksIn(h[..|h| - 1], from, to) + (if from <= h[|h| - 1].second <= to then h[|h| - 1].acks else 0)
  }

  function LossesIn(h: seq<Sample>, from: int, to: int): nat {
    if h == [] then 0
    else LossesIn(h[..|h| - 1], from, to) + (if from <= h[|h| - 1].second <= to then h[|h| - 1].losses else 0)
  }

  function Rate(acks: nat, losses: nat): (r: real)
    ensures MIN_ACK_RATE <= r <= 1.0
  {
    if acks + losses < MIN_SAMPLE_COUNT then 1.0
    else
      var total := acks + losses;
      var rate := (acks as real) / (total as real);
      AtMostOne(acks as real, total as real);
      if rate < MIN_ACK_RATE then MIN_ACK_RATE else rate
  }

  lemma {:induction false} AtMostOne(a: real, b: real)
    requires 0.0 <= a <= b && b > 0.0
    ensures a / b <= 1.0
  {
  }

  // ----- the ring -----

  /** `add_samples` on the ring. */
  function Record(slots: seq<PktInfo>, now: nat, acks: nat, losses: nat): (r: seq<PktInfo>)
    requires |slots| == SLOTS
    ensures |r| == SLOTS
  {
    var i := now % SLOTS;
    if slots[i].timestamp == now
    then slots[i := PktInfo(now, slots[i].acks + acks, slots[i].losses + losses)]
    else slots[i := PktInfo(now, acks, losses)]
  }

  /** The slots the rate is drawn from: the code's filter also admits `now - 5`. */
  function RingAcks(slots: seq<PktInfo>, now: int): nat {
    if slots == [] then 0
    else RingAcks(slots[..|slots| - 1], now)
         + (if slots[|slots| - 1].timestamp >= now - SLOTS then slots[|slots| - 1].acks else 0)
  }

  function RingLosses(slots: seq<PktInfo>, now: int): nat {
    if slots == [] then 0
    else RingLosses(slots[..|slots| - 1], now)
         + (if slots[|slots| - 1].timestamp >= now - SLOTS then slots[|slots| - 1].losses else 0)
  }

  function RingAfter(h: seq<Sample>): (slots: seq<PktInfo>)
    ensures |slots| == SLOTS
  {
    if h == [] then seq(SLOTS, _ => PktInfo(0, 0, 0))
    else
      var last := h[|h| - 1];
      Record(RingAfter(h[..|h| - 1]), last.second, last.acks, last.losses)
  }

  /** Slot i holds everything recorded at its second, and nothing later fell into it. */
  predicate SlotHolds(slot: PktInfo, i: nat, h: seq<Sample>) {
    && (if slot.timestamp % SLOTS == i
        then slot.acks == AcksIn(h, slot.timestamp, slot.timestamp)
             && slot.losses == LossesIn(h, slot.timestamp, slot.timestamp)
        else slot.acks == 0 && slot.losses == 0)
    && forall k :: 0 <= k < |h| && h[k].second % SLOTS == i ==>
         h[k].second <= slot.timestamp && slot.timestamp % SLOTS == i
  }

  predicate RingHolds(slots: seq<PktInfo>, h: seq<Sample>) {
    |slots| == SLOTS && forall i :: 0 <= i < SLOTS ==> SlotHolds(slots[i], i, h)
  }

  lemma {:induction false} SumsStep(h: seq<Sample>, s: Sample, from: int, to: int)
    ensures AcksIn(h + [s], from, to) == AcksIn(h, from, to) + (if from <= s.second <= to then s.acks else 0)
    ensures LossesIn(h + [s], from, to) == LossesIn(h, from, to) + (if from <= s.second <= to then s.losses else 0)
  {
    assert (h + [s])[..|h|] == h;
  }

  /** Nothing recorded in a range sums to nothing. */
  lemma {:induction false} EmptyRange(h: seq<Sample>, from: int, to: int)
    requires forall k :: 0 <= k < |h| ==> !(from <= h[k].second <= to)
    ensures AcksIn(h, from, to) == 0 && LossesIn(h, from, to) == 0
  {
    if h != [] {
      EmptyRange(h[..|h| - 1], from, to);
    }
  }

  lemma {:induction false} SplitRange(h: seq<Sample>, from: int, mid: int, to: int)
    requires from <= mid <= to
    ensures AcksIn(h, from, to) == AcksIn(h, from, mid) + AcksIn(h, mid + 1, to)
    ensures LossesIn(h, from, to) == LossesIn(h, from, mid) + LossesIn(h, mid + 1, to)
  {
    if h != [] {
      SplitRange(h[..|h| - 1], from, mid, to);
    }
  }

  lemma {:induction false} OtherSlotKeeps(slot: PktInfo, i: nat, h: seq<Sample>, s: Sample)
    requires SlotHolds(slot, i, h) && s.second % SLOTS != i
    ensures SlotHolds(slot, i, h + [s])
  {
    SumsStep(h, s, slot.timestamp, slot.timestamp);
  }

  lemma {:induction false} OwnSlotUpdates(slot: PktInfo, h: seq<Sample>, s: Sample)
    requires SlotHolds(slot, s.second % SLOTS, h) && slot.timestamp <= s.second
    requires forall k :: 0 <= k < |h| ==> h[k].second <= s.second
    ensures SlotHolds(if slot.timestamp == s.second
                      then PktInfo(s.second, slot.acks + s.acks, slot.losses + s.losses)
                      else PktInfo(s.second, s.acks, s.losses),
                      s.second % SLOTS, h + [s])
  {
    SumsStep(h, s, s.second, s.second);
    if slot.timestamp != s.second {
      forall k | 0 <= k < |h|
        ensures h[k].second != s.second
      {
      }
      EmptyRange(h, s.second, s.second);
    }
  }

  lemma {:induction false} OrderedPrefix(h: seq<Sample>)
    requires Ordered(h) && h != []
    ensures Ordered(h[..|h| - 1]) && forall k :: 0 <= k < |h| - 1 ==> h[k].second <= h[|h| - 1].second
  {
  }

  lemma {:induction false} SlotTimesBounded(h: seq<Sample>, now: nat)
    requires forall k :: 0 <= k < |h| ==> h[k].second <= now
    ensures forall i :: 0 <= i < SLOTS ==> RingAfter(h)[i].timestamp <= now
  {
    if h != [] {
      SlotTimesBounded(h[..|h| - 1], now);
    }
  }

  lemma {:induction false} RingInvariant(h: seq<Sample>)
    requires Ordered(h)
    ensures RingHolds(RingAfter(h), h)
  {
    if h != [] {
      OrderedPrefix(h);
      var before, s := h[..|h| - 1], h[|h| - 1];
      RingInvariant(before);
      assert h == before + [s];
      var slots := RingAfter(before);
      SlotTimesBounded(before, s.second);
      OwnSlotUpdates(slots[s.second % SLOTS], before, s);
      forall i | 0 <= i < SLOTS && i != s.second % SLOTS
        ensures SlotHolds(RingAfter(h)[i], i, h)
      {
        OtherSlotKeeps(slots[i], i, before, s);
      }
    }
  }

  /** How many seconds ago slot i was last due. */
  function Age(now: int, i: nat): (d: int)
    requires now >= 0 && i < SLOTS
    ensures 0 <= d < SLOTS
  {
    (now % SLOTS + SLOTS - i) % SLOTS
  }

  function Acks(slot: PktInfo, now: int): nat {
    if slot.timestamp >= now - SLOTS then slot.acks else 0
  }

  function Losses(slot: PktInfo, now: int): nat {
    if slot.timestamp >= now - SLOTS then slot.losses else 0
  }

  /** What one slot contributes is what its second among the last five contributed. */
  lemma {:induction false} SlotContribution(slot: PktInfo, i: nat, h: seq<Sample>, now: int)
    requires now >= 0 && i < SLOTS && SlotHolds(slot, i, h) && slot.timestamp <= now
    requires Age(now, i) == 0 ==> slot.timestamp == now
    ensures Acks(slot, now) == AcksIn(h, now - Age(now, i), now - Age(now, i))
    ensures Losses(slot, now) == LossesIn(h, now - Age(now, i), now - Age(now, i))
  {
    var t: int := now - Age(now, i);
    DueSecond(now, i);
    if slot.timestamp % SLOTS == i && slot.timestamp != t {
      ApartByFive(slot.timestamp, t, i);
    }
    if slot.timestamp != t {
      forall k | 0 <= k < |h|
        ensures h[k].second != t
      {
      }
      EmptyRange(h, t, t);
    }
  }

  lemma {:induction false} DueSecond(now: int, i: nat)
    requires now >= 0 && i < SLOTS
    ensures now - Age(now, i) >= 0 ==> (now - Age(now, i)) % SLOTS == i
    ensures now - Age(now, i) < 0 ==> forall t: int :: 0 <= t <= now ==> t % SLOTS != i
  {
  }

  lemma {:induction false} ApartByFive(a: int, b: int, i: nat)
    requires a >= 0 && a != b && a % SLOTS == i && (b >= 0 ==> b % SLOTS == i)
    ensures b >= 0 ==> a + 5 <= b || b + 5 <= a
  {
  }

  lemma {:induction false} RingSumStep(slots: seq<PktInfo>, now: int)
    requires slots != []
    ensures RingAcks(slots, now) == RingAcks(slots[..|slots| - 1], now) + Acks(slots[|slots| - 1], now)
    ensures RingLosses(slots, now) == RingLosses(slots[..|slots| - 1], now) + Losses(slots[|slots| - 1], now)
  {
  }

  lemma {:induction false} RingSum(slots: seq<PktInfo>, now: int)
    requires |slots| == SLOTS
    ensures RingAcks(slots, now) ==
            Acks(slots[0], now) + Acks(slots[1], now) + Acks(slots[2], now) + Acks(slots[3], now) + Acks(slots[4], now)
    ensures RingLosses(slots, now) ==
            Losses(slots[0], now) + Losses(slots[1], now) + Losses(slots[2], now) + Losses(slots[3], now)
            + Losses(slots[4], now)
  {
    RingSumStep(slots[..1], now);
    RingSumStep(slots[..2], now);
    RingSumStep(slots[..3], now);
    RingSumStep(slots[..4], now);
    RingSumStep(slots, now);
    assert slots[..4][..3] == slots[..3] && slots[..3][..2] == slots[..2] && slots[..2][..1] == slots[..1];
    assert slots[..1][..0] == [];
  }

  lemma {:induction false} WindowSum(h: seq<Sample>, now: int)
    ensures AcksIn(h, now - 4, now) ==
            AcksIn(h, now, now) + AcksIn(h, now - 1, now - 1) + AcksIn(h, now - 2, now - 2)
            + AcksIn(h, now - 3, now - 3) + AcksIn(h, now - 4, now - 4)
    ensures LossesIn(h, now - 4, now) ==
            LossesIn(h, now, now) + LossesIn(h, now - 1, now - 1) + LossesIn(h, now - 2, now - 2)
            + LossesIn(h, now - 3, now - 3) + LossesIn(h, now - 4, now - 4)
  {
    SplitRange(h, now - 4, now - 4, now);
    SplitRange(h, now - 3, now - 3, now);
    SplitRange(h, now - 2, now - 2, now);
    SplitRange(h, now - 1, now - 1, now);
  }

  /** The second of the latest sample. */
  function LastSecond(h: seq<Sample>): (t: int)
    requires h != []
    ensures t >= 0
  {
    h[|h| - 1].second
  }

  lemma {:induction false} SlotOfAge(h: seq<Sample>, i: nat)
    requires Ordered(h) && h != [] && i < SLOTS
    ensures var now := LastSecond(h);
            var t: int := now - Age(now, i);
            && Acks(RingAfter(h)[i], now) == AcksIn(h, t, t)
            && Losses(RingAfter(h)[i], now) == LossesIn(h, t, t)
  {
    RingInvariant(h);
    SlotTimesBounded(h, LastSecond(h));
    SlotContribution(RingAfter(h)[i], i, h, LastSecond(h));
  }

  /** The five slots' ages are 0 to 4 in some order. */
  lemma {:induction false} AgesPermute(now: int)
    requires now >= 0
    ensures var a, b, c, d, e := Age(now, 0), Age(now, 1), Age(now, 2), Age(now, 3), Age(now, 4);
            || (a == 0 && b == 4 && c == 3 && d == 2 && e == 1)
            || (a == 1 && b == 0 && c == 4 && d == 3 && e == 2)
            || (a == 2 && b == 1 && c == 0 && d == 4 && e == 3)
            || (a == 3 && b == 2 && c == 1 && d == 0 && e == 4)
            || (a == 4 && b == 3 && c == 2 && d == 1 && e == 0)
  {
  }

  lemma {:induction false} SumByAge(now: int, f: int -> nat)
    requires now >= 0
    ensures f(now - Age(now, 0)) + f(now - Age(now, 1)) + f(now - Age(now, 2)) + f(now - Age(now, 3))
            + f(now - Age(now, 4)) ==
            f(now) + f(now - 1) + f(now - 2) + f(now - 3) + f(now - 4)
  {
    AgesPermute(now);
  }

  lemma {:induction false} RingAcksByAge(slots: seq<PktInfo>, now: int, f: int -> nat)
    requires |slots| == SLOTS && now >= 0
    requires forall i: nat :: i < SLOTS ==> Acks(slots[i], now) == f(now - Age(now, i))
    ensures RingAcks(slots, now) == f(now) + f(now - 1) + f(now - 2) + f(now - 3) + f(now - 4)
  {
    RingSum(slots, now);
    SumByAge(now, f);
  }

  lemma {:induction false} RingLossesByAge(slots: seq<PktInfo>, now: int, f: int -> nat)
    requires |slots| == SLOTS && now >= 0
    requires forall i: nat :: i < SLOTS ==> Losses(slots[i], now) == f(now - Age(now, i))
    ensures RingLosses(slots, now) == f(now) + f(now - 1) + f(now - 2) + f(now - 3) + f(now - 4)
  {
    RingSum(slots, now);
    SumByAge(now, f);
  }

  lemma {:induction false} RingAcksAreWindow(h: seq<Sample>)
    requires Ordered(h) && h != []
    ensures RingAcks(RingAfter(h), LastSecond(h)) == AcksIn(h, LastSecond(h) - 4, LastSecond(h))
  {
    var now, f := LastSecond(h), (t: int) => AcksIn(h, t, t);
    forall i: nat | i < SLOTS
      ensures Acks(RingAfter(h)[i], now) == f(now - Age(now, i))
    {
      SlotOfAge(h, i);
    }
    RingAcksByAge(RingAfter(h), now, f);
    WindowSum(h, now);
  }

  lemma {:induction false} RingLossesAreWindow(h: seq<Sample>)
    requires Ordered(h) && h != []
    ensures RingLosses(RingAfter(h), LastSecond(h)) == LossesIn(h, LastSecond(h) - 4, LastSecond(h))
  {
    var now, f := LastSecond(h), (t: int) => LossesIn(h, t, t);
    forall i: nat | i < SLOTS
      ensures Losses(RingAfter(h)[i], now) == f(now - Age(now, i))
    {
      SlotOfAge(h, i);
    }
    RingLossesByAge(RingAfter(h), now, f);
    WindowSum(h, now);
  }

  /**
    The ring is a sliding window: after recording at `now`, the totals the rate is drawn from are
    the sums over every sample ever recorded in the last five seconds, now-4 to now.
   */
  lemma {:induction false} RingIsSlidingWindow(h: seq<Sample>)
    requires Ordered(h) && h != []
    ensures RingAcks(RingAfter(h), LastSecond(h)) == AcksIn(h, LastSecond(h) - 4, LastSecond(h))
    ensures RingLosses(RingAfter(h), LastSecond(h)) == LossesIn(h, LastSecond(h) - 4, LastSecond(h))
  {
    RingAcksAreWindow(h);
    RingLossesAreWindow(h);
  }

  // ----- the window -----

  function Floor(x: real): (n: nat)
    requires x >= 0.0
    ensures n as real <= x < (n + 1) as real
  {
    x.Floor
  }

  lemma {:induction false} FloorMonotone(x: real, y: real)
    requires 0.0 <= x <= y
    ensures Floor(x) <= Floor(y)
  {
  }

  function Max(a: nat, b: nat): nat { if a < b then b else a }

  /** The window for a bandwidth-delay product. */
  function Sized(product: real, ackRate: real, mtu: nat): nat
    requires product >= 0.0 && ackRate > 0.0
  {
    NonNegativeQuotient(product * CONGESTION_WINDOW_MULTIPLIER, ackRate);
    Max(Floor(product * CONGESTION_WINDOW_MULTIPLIER / ackRate), mtu)
  }

  function Product(bps: nat, rtt: real): (x: real)
    requires rtt >= 0.0
    ensures x >= 0.0
  {
    bps as real * rtt
  }

  /** `congestion_window` for an acknowledgement rate. */
  function Window(bps: nat, rtt: real, ackRate: real, mtu: nat): nat
    requires rtt >= 0.0 && ackRate > 0.0
  {
    if rtt <= 0.0 then INITIAL_WINDOW else Sized(Product(bps, rtt), ackRate, mtu)
  }

  lemma {:induction false} NonNegativeQuotient(x: real, y: real)
    requires x >= 0.0 && y > 0.0
    ensures x / y >= 0.0
  {
  }

  lemma {:induction false} QuotientAntitone(x: real, a: real, b: real)
    requires x >= 0.0 && 0.0 < a <= b
    ensures x / b <= x / a
  {
    var q := x / b;
    NonNegativeQuotient(x, b);
    assert q * b == x;
    assert q * a <= q * b;
    assert (q * a) / a == q;
    DivideMonotone(q * a, x, a);
  }

  lemma {:induction false} DivideMonotone(x: real, y: real, d: real)
    requires x <= y && d > 0.0
    ensures x / d <= y / d
  {
  }

  /** A lower rate never gives a smaller window. */
  lemma {:induction false} SizedAntitone(x: real, a: real, b: real, mtu: nat)
    requires x >= 0.0 && 0.0 < a <= b
    ensures Sized(x, b, mtu) <= Sized(x, a, mtu)
  {
    var y := x * CONGESTION_WINDOW_MULTIPLIER;
    QuotientAntitone(y, a, b);
    NonNegativeQuotient(y, a);
    NonNegativeQuotient(y, b);
    FloorMonotone(y / b, y / a);
  }

  lemma {:induction false} WindowAntitone(bps: nat, rtt: real, a: real, b: real, mtu: nat)
    requires rtt >= 0.0 && 0.0 < a <= b
    ensures Window(bps, rtt, b, mtu) <= Window(bps, rtt, a, mtu)
  {
    SizedAntitone(Product(bps, rtt), a, b, mtu);
  }

  lemma {:induction false} SizedAtLimits(x: real, mtu: nat)
    requires x >= 0.0
    ensures Sized(x, 1.0, mtu) == Max(Floor(2.0 * x), mtu)
    ensures Sized(x, MIN_ACK_RATE, mtu) == Max(Floor(2.5 * x), mtu)
  {
    assert x * CONGESTION_WINDOW_MULTIPLIER / 1.0 == 2.0 * x;
    assert x * CONGESTION_WINDOW_MULTIPLIER / MIN_ACK_RATE == 2.5 * x;
  }

  /** Between the loss-free window and five quarters of it. */
  lemma {:induction false} WindowBounds(bps: nat, rtt: real, ackRate: real, mtu: nat)
    requires rtt > 0.0 && MIN_ACK_RATE <= ackRate <= 1.0
    ensures Max(Floor(2.0 * Product(bps, rtt)), mtu) <= Window(bps, rtt, ackRate, mtu)
    ensures Window(bps, rtt, ackRate, mtu) <= Max(Floor(2.5 * Product(bps, rtt)), mtu)
  {
    var x := Product(bps, rtt);
    SizedAtLimits(x, mtu);
    SizedAntitone(x, ackRate, 1.0, mtu);
    SizedAntitone(x, MIN_ACK_RATE, ackRate, mtu);
  }

  lemma {:induction false} MoreLossLowerRate(acks: nat, losses: nat, more: nat)
    ensures Rate(acks, losses + more) <= Rate(acks, losses)
  {
    var a, n, m := acks as real, (acks + losses) as real, (acks + losses + more) as real;
    if acks + losses >= MIN_SAMPLE_COUNT {
      QuotientAntitone(a, n, m);
    }
  }

  lemma {:induction false} OrderedAppend(h: seq<Sample>, s: Sample)
    requires Ordered(h) && (h != [] ==> h[|h| - 1].second <= s.second)
    ensures Ordered(h + [s])
  {
  }

  lemma {:induction false} CeilingBounds(a: nat, b: nat)
    requires b > 0
    ensures var n := (a + b - 1) / b;
            (n - 1) * b < a <= n * b
  {
    var n, r := (a + b - 1) / b, (a + b - 1) % b;
    assert a + b - 1 == n * b + r;
  }

  /** The rate the last five seconds of a history call for. */
  function RateOf(h: seq<Sample>): (r: real)
    ensures MIN_ACK_RATE <= r <= 1.0
  {
    if h == [] then 1.0
    else Rate(AcksIn(h, LastSecond(h) - 4, LastSecond(h)), LossesIn(h, LastSecond(h) - 4, LastSecond(h)))
  }

  lemma {:induction false} Quotient(a: real, n: real, rate: real)
    requires n > 0.0 && rate == a / n
    ensures rate * n == a
    ensures rate < 0.8 <==> a < 0.8 * n
    ensures a == 0.8 * n ==> rate == 0.8
  {
    assert a / n * n == a;
    if a < 0.8 * n {
      QuotientBelow(a, n);
    }
    Scaled(0.8, rate, n);
    Scaled(rate, 0.8, n);
  }

  lemma {:induction false} QuotientBelow(a: real, n: real)
    requires n > 0.0 && a < 0.8 * n
    ensures a / n < 0.8
  {
    var q := a / n;
    assert q * n == a;
    Scaled(0.8, q, n);
  }

  /** The rate: 1 on fewer than 50 samples, else the acknowledged share, and 4/5 below that. */
  lemma {:induction false} RateMeans(acks: nat, losses: nat)
    ensures acks + losses < 50 ==> Rate(acks, losses) == 1.0
    ensures acks + losses >= 50 && 5 * acks >= 4 * (acks + losses) ==>
              Rate(acks, losses) * (acks + losses) as real == acks as real
    ensures acks + losses >= 50 && 5 * acks <= 4 * (acks + losses) ==> Rate(acks, losses) == 0.8
  {
    if acks + losses >= 50 {
      var a, n := acks as real, (acks + losses) as real;
      Quotient(a, n, a / n);
      assert 5.0 * a == (5 * acks) as real && 4.0 * n == (4 * (acks + losses)) as real;
    }
  }

  lemma {:induction false} NoLossFullRate(acks: nat)
    ensures Rate(acks, 0) == 1.0
  {
    if acks >= 50 {
      var n := acks as real;
      Quotient(n, n, n / n);
      Whole(n / n, n);
    }
  }

  /** Acks and losses of a history's last five seconds. */
  function RecentAcks(h: seq<Sample>): nat {
    if h == [] then 0 else AcksIn(h, LastSecond(h) - 4, LastSecond(h))
  }

  function RecentLosses(h: seq<Sample>): nat {
    if h == [] then 0 else LossesIn(h, LastSecond(h) - 4, LastSecond(h))
  }

  /** The rate of a history is that of its last five seconds. */
  lemma {:induction false} RateOfMeans(h: seq<Sample>)
    ensures var a, l := RecentAcks(h), RecentLosses(h);
            && (a + l < 50 ==> RateOf(h) == 1.0)
            && (a + l >= 50 && 5 * a >= 4 * (a + l) ==> RateOf(h) * (a + l) as real == a as real)
            && (a + l >= 50 && 5 * a <= 4 * (a + l) ==> RateOf(h) == 0.8)
            && (l == 0 ==> RateOf(h) == 1.0)
  {
    assert RateOf(h) == Rate(RecentAcks(h), RecentLosses(h));
    RateMeans(RecentAcks(h), RecentLosses(h));
    NoLossFullRate(RecentAcks(h));
  }

  lemma {:induction false} Whole(rate: real, n: real)
    requires n > 0.0 && rate * n == n
    ensures rate == 1.0
  {
    assert (rate - 1.0) * n == 0.0;
  }

  /** The window is the bandwidth-delay product, doubled and divided by the rate, down to whole bytes. */
  lemma {:induction false} WindowMeans(bps: nat, rtt: real, rate: real, mtu: nat)
    requires rtt > 0.0 && rate > 0.0
    ensures var w, x := Window(bps, rtt, rate, mtu), 2.0 * (bps as real * rtt);
            && w >= mtu && x < (w + 1) as real * rate && (w > mtu ==> w as real * rate <= x)
  {
    var x := Product(bps, rtt) * CONGESTION_WINDOW_MULTIPLIER;
    NonNegativeQuotient(x, rate);
    var q := x / rate;
    assert q * rate == x;
    var n, w := Floor(q), Window(bps, rtt, rate, mtu);
    Scaled(q, (w + 1) as real, rate);
    Scaled(n as real, q, rate);
  }

  lemma {:induction false} Scaled(a: real, b: real, rate: real)
    requires rate > 0.0
    ensures a < b ==> a * rate < b * rate
    ensures a <= b ==> a * rate <= b * rate
  {
  }

  /** However large the losses of a second, had they been larger the rate would not be higher. */
  lemma {:induction false} LargerLossLowersRate(h: seq<Sample>, s: Sample, more: nat)
    ensures RateOf(h + [s.(losses := s.losses + more)]) <= RateOf(h + [s])
  {
    var worse := s.(losses := s.losses + more);
    var from, to := s.second - 4, s.second;
    SumsStep(h, s, from, to);
    SumsStep(h, worse, from, to);
    MoreLossLowerRate(AcksIn(h + [s], from, to), LossesIn(h + [s], from, to), more);
  }

  /** More loss in a second never gives a smaller window, whatever was recorded before it. */
  lemma {:induction false} LargerLossWidensWindow(bps: nat, rtt: real, mtu: nat, h: seq<Sample>, s: Sample, more: nat)
    requires rtt >= 0.0
    ensures Window(bps, rtt, RateOf(h + [s]), mtu) <= Window(bps, rtt, RateOf(h + [s.(losses := s.losses + more)]), mtu)
  {
    LargerLossLowersRate(h, s, more);
    WindowAntitone(bps, rtt, RateOf(h + [s.(losses := s.losses + more)]), RateOf(h + [s]), mtu);
  }

  /** Nor does loss added to the second sampled last, or recorded before anything else was. */
  lemma {:induction false} LossLowersRate(h: seq<Sample>, now: nat, losses: nat)
    requires h != [] ==> now == LastSecond(h)
    ensures RateOf(h + [Sample(now, 0, losses)]) <= RateOf(h)
  {
    if h != [] {
      SumsStep(h, Sample(now, 0, 0), now - 4, now);
      assert RateOf(h + [Sample(now, 0, 0)]) == RateOf(h);
      LargerLossLowersRate(h, Sample(now, 0, 0), losses);
    }
  }

  /** Recording a sample in the ring and taking the ring's rate is taking the rate of the longer history. */
  lemma {:induction false} HistoryStep(h: seq<Sample>, s: Sample)
    requires Ordered(h) && (h != [] ==> h[|h| - 1].second <= s.second)
    ensures Ordered(h + [s])
    ensures RingAfter(h + [s]) == Record(RingAfter(h), s.second, s.acks, s.losses)
    ensures Rate(RingAcks(RingAfter(h + [s]), s.second), RingLosses(RingAfter(h + [s]), s.second)) == RateOf(h + [s])
  {
    assert (h + [s])[..|h|] == h;
    OrderedAppend(h, s);
    RingIsSlidingWindow(h + [s]);
  }

  // ----- the sender -----

  class BrutalSender {
    const bps: nat
    var mtu: nat
    var rtt: real
    var slots: array<PktInfo>
    var ackRate: real
    /** Every batch recorded so far. */
    ghost var history: seq<Sample>

    /** In every reachable state the ring is the history's, and the rate is that of its last five seconds. */
    ghost predicate Valid()
      reads this, slots
    {
      && slots.Length == SLOTS && Ordered(history) && slots[..] == RingAfter(history)
      && rtt >= 0.0
      && ackRate == RateOf(history)
    }

    constructor (bps: nat, mtu: nat)
      ensures Valid() && history == [] && this.bps == bps && this.mtu == mtu && rtt == 0.0
      ensures fresh(slots)
    {
      this.bps, this.mtu := bps, mtu;
      rtt, ackRate, history := 0.0, 1.0, [];
      slots := new PktInfo[SLOTS](_ => PktInfo(0, 0, 0));
      new;
      assert slots[..] == RingAfter([]);
    }

    /** `add_samples`; event times do not run backwards. */
    method AddSamples(now: nat, acks: nat, losses: nat)
      requires Valid() && (history != [] ==> history[|history| - 1].second <= now)
      modifies this`history, this`ackRate, slots
      ensures Valid() && history == old(history) + [Sample(now, acks, losses)]
    {
      ghost var longer := history + [Sample(now, acks, losses)];
      HistoryStep(history, Sample(now, acks, losses));
      RecordInRing(now, acks, losses);
      assert slots[..] == RingAfter(longer);
      UpdateAckRate(now);
      assert ackRate == RateOf(longer);
      history := longer;
    }

    /** The ring update of `add_samples`. */
    method RecordInRing(now: nat, acks: nat, losses: nat)
      requires slots.Length == SLOTS
      modifies slots
      ensures slots[..] == Record(old(slots[..]), now, acks, losses)
    {
      var i := now % SLOTS;
      if slots[i].timestamp == now {
        slots[i] := PktInfo(now, slots[i].acks + acks, slots[i].losses + losses);
      } else {
        slots[i] := PktInfo(now, acks, losses);
      }
    }

    /** `update_ack_rate`. */
    method UpdateAckRate(now: nat)
      requires slots.Length == SLOTS
      modifies this`ackRate
      ensures ackRate == Rate(RingAcks(slots[..], now), RingLosses(slots[..], now))
    {
      var minTimestamp := now - SLOTS;
      var acks, losses := 0, 0;
      for i := 0 to SLOTS
        invariant acks == RingAcks(slots[..i], now) && losses == RingLosses(slots[..i], now)
      {
        assert slots[..i + 1][..i] == slots[..i];
        if slots[i].timestamp >= minTimestamp {
          acks, losses := acks + slots[i].acks, losses + slots[i].losses;
        }
      }
      assert slots[..SLOTS] == slots[..];
      if acks + losses < MIN_SAMPLE_COUNT {
        ackRate := 1.0;
        return;
      }
      var rate := (acks as real) / ((acks + losses) as real);
      ackRate := if rate < MIN_ACK_RATE then MIN_ACK_RATE else rate;
    }

    /** `window`: bounded once an RTT is known, whatever was recorded. */
    method CongestionWindow() returns (w: nat)
      requires Valid()
      ensures w == Window(bps, rtt, RateOf(history), mtu)
      ensures rtt == 0.0 ==> w == 10240
      ensures rtt > 0.0 ==>
                Max(Floor(2.0 * Product(bps, rtt)), mtu) <= w <= Max(Floor(2.5 * Product(bps, rtt)), mtu)
      ensures var a, l := RecentAcks(history), RecentLosses(history);
              rtt > 0.0 ==>
                && (a + l < 50 || l == 0 ==> w == Max(Floor(2.0 * Product(bps, rtt)), mtu))
                && (a + l >= 50 && 5 * a <= 4 * (a + l) ==> w == Max(Floor(2.5 * Product(bps, rtt)), mtu))
    {
      if rtt <= 0.0 {
        return INITIAL_WINDOW;
      }
      WindowBounds(bps, rtt, ackRate, mtu);
      SizedAtLimits(Product(bps, rtt), mtu);
      RateOfMeans(history);
      w := Window(bps, rtt, ackRate, mtu);
    }

    /** `on_ack`: one acknowledged packet, and a fresh RTT. */
    method OnAck(now: nat, rtt: real)
      requires Valid() && rtt >= 0.0 && (history != [] ==> history[|history| - 1].second <= now)
      modifies this`rtt, this`history, this`ackRate, slots
      ensures Valid() && history == old(history) + [Sample(now, 1, 0)] && this.rtt == rtt
    {
      this.rtt := rtt;
      AddSamples(now, 1, 0);
    }

    /** `on_congestion_event`: lost bytes become packets, rounded up; none means nothing happened. */
    method OnCongestionEvent(now: nat, lostBytes: nat)
      requires Valid() && (history != [] ==> history[|history| - 1].second <= now)
      modifies this`history, this`ackRate, slots
      ensures Valid()
      ensures lostBytes == 0 ==> history == old(history)
      ensures lostBytes > 0 ==>
                exists n: nat :: history == old(history) + [Sample(now, 0, n)]
                  && (n - 1) * Max(mtu, 1) < lostBytes <= n * Max(mtu, 1)
    {
      if lostBytes == 0 {
        return;
      }
      var size := Max(mtu, 1);
      var lostPackets := (lostBytes + size - 1) / size;
      CeilingBounds(lostBytes, size);
      AddSamples(now, 0, lostPackets);
    }

    /** `on_mtu_update`. */
    method OnMtuUpdate(newMtu: nat)
      requires Valid()
      modifies this`mtu
      ensures Valid() && mtu == newMtu
    {
      mtu := newMtu;
    }

    /** Loss recorded in the second sampled last, or as the first sample ever, never shrinks the window. */
    method LossNeverShrinksWindow(now: nat, losses: nat) returns (before: nat, after: nat)
      requires Valid() && (history != [] ==> now == LastSecond(history))
      modifies this`history, this`ackRate, slots
      ensures Valid() && history == old(history) + [Sample(now, 0, losses)]
      ensures before == Window(bps, rtt, RateOf(old(history)), mtu)
      ensures after == Window(bps, rtt, RateOf(history), mtu)
      ensures before <= after
    {
      before := CongestionWindow();
      LossLowersRate(history, now, losses);
      WindowAntitone(bps, rtt, RateOf(history + [Sample(now, 0, losses)]), RateOf(history), mtu);
      AddSamples(now, 0, losses);
      after := CongestionWindow();
    }
  }
}
