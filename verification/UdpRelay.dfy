/**
  The UDP relay end to end: what a peer's defragger returns when the datagrams of a split message
  arrive in any order, with duplicates and among other traffic.
 */
module UdpRelay {
  import opened Bytes
  import opened UdpCodec
  import opened Frag
  import opened Defrag

  // ----- one split message, as parsed messages -----

  /** The fragments of one packet, in order. */
  predicate Split(frags: seq<UdpMessage>) {
    && 2 <= |frags| && Numbered(frags)
    && forall i :: 0 <= i < |frags| ==> SamePacket(frags[0], frags[i])
  }

  /** Every fragment in the history is one of these; whatever else is there is not a fragment. */
  predicate Only(frags: seq<UdpMessage>, h: seq<UdpMessage>) {
    forall k :: 0 <= k < |h| && IsFragment(h[k]) ==> h[k].fragId < |frags| && h[k] == frags[h[k].fragId]
  }

  predicate AllIn(frags: seq<UdpMessage>, h: seq<UdpMessage>) {
    forall i :: 0 <= i < |frags| ==> frags[i] in h
  }

  predicate OffPacket(d: State, frags: seq<UdpMessage>)
    requires frags != []
  {
    !OnPacket(d, frags[0])
  }

  /** The first arrival in slot i is fragment i itself, as soon as it has come in. */
  lemma {:induction false} RunFirst(frags: seq<UdpMessage>, h: seq<UdpMessage>, i: nat)
    requires Split(frags) && Only(frags, h) && i < |frags|
    ensures First(CurrentRun(h), i) == if frags[i] in h then Some(frags[i]) else None
    ensures CurrentRun(h) == [] || SamePacket(CurrentRun(h)[0], frags[0])
    decreases |h|
  {
    if h != [] {
      var before, m := h[..|h| - 1], h[|h| - 1];
      assert h == before + [m];
      RunFirst(frags, before, i);
      if IsFragment(m) {
        FirstAppend(CurrentRun(before), m, i);
        assert CurrentRun(h) == CurrentRun(before) + [m];
      }
    }
  }

  lemma {:induction false} OnlyUnrelated(frags: seq<UdpMessage>, d: State, h: seq<UdpMessage>)
    requires Split(frags) && Only(frags, h) && OffPacket(d, frags)
    ensures Unrelated(d, h)
  {
    forall k | 0 <= k < |h| && IsFragment(h[k])
      ensures !OnPacket(d, h[k])
    {
      assert SamePacket(frags[0], frags[h[k].fragId]);
    }
  }

  lemma {:induction false} RunComplete(frags: seq<UdpMessage>, h: seq<UdpMessage>)
    requires Split(frags) && Only(frags, h)
    ensures Complete(CurrentRun(h)) <==> AllIn(frags, h)
    ensures Complete(CurrentRun(h)) ==> Assembled(CurrentRun(h)) == Concat(Payloads(frags))
  {
    var run := CurrentRun(h);
    forall i: nat | i < |frags|
      ensures First(run, i) == if frags[i] in h then Some(frags[i]) else None
    {
      RunFirst(frags, h, i);
    }
    RunFirst(frags, h, 0);
    assert frags[0].fragCount == |frags|;
    if run == [] {
      assert frags[0] !in h;
    } else if Complete(run) {
      assert Firsts(run) == Payloads(frags);
    } else {
      var i: nat :| i < run[0].fragCount && First(run, i).None?;
      assert frags[i] !in h;
    }
  }

  /** The next fragment yields the whole payload if it was the last one missing, and nothing otherwise. */
  lemma {:induction false} FragmentOutcome(frags: seq<UdpMessage>, d: State, h: seq<UdpMessage>, m: UdpMessage)
    requires Split(frags) && Only(frags, h) && OffPacket(d, frags)
    requires IsFragment(m) && m.fragId < |frags| && m == frags[m.fragId]
    ensures Step(After(d, h), m).out ==
            if AllIn(frags, h + [m]) && !AllIn(frags, h)
            then Some(m.(fragId := 0, fragCount := 1, data := Concat(Payloads(frags)))) else None
  {
    var now := h + [m];
    assert now[..|h|] == h;
    assert Only(frags, now) by {
      assert forall k :: 0 <= k < |now| ==> now[k] == if k < |h| then h[k] else m;
    }
    OnlyUnrelated(frags, d, now);
    RefinesFrom(d, h, m);
    RunFirst(frags, h, 0);
    RunComplete(frags, h);
    RunComplete(frags, now);
    var run := CurrentRun(h);
    if run == [] {
      assert CurrentRun(now)[..0] == [];
    } else {
      assert CurrentRun(now) == run + [m];
      assert (run + [m])[..|run|] == run;
    }
  }

  // ----- the same over datagrams -----

  /** The messages that parse; the receive loop skips everything else. */
  function Messages(arrivals: seq<seq<byte>>): seq<UdpMessage> {
    if arrivals == [] then []
    else
      var before, last := Messages(arrivals[..|arrivals| - 1]), Parse(arrivals[|arrivals| - 1]);
      if last.Ok? then before + [last.msg] else before
  }

  /** What the k-th datagram returns to the reader. */
  function Output(d: State, arrivals: seq<seq<byte>>, k: nat): Option<UdpMessage>
    requires k < |arrivals|
  {
    match Parse(arrivals[k])
    case Ok(m) => Step(After(d, Messages(arrivals[..k])), m).out
    case Err(_) => None
  }

  /** Unparsable bytes, unfragmented messages, and fragments whose id is not below their count. */
  predicate Noise(datagram: seq<byte>) {
    Parse(datagram).Err? || !IsFragment(Parse(datagram).msg)
  }

  /** Datagrams that parse to the fragments of one packet. */
  predicate Carrier(frags: seq<UdpMessage>, wire: seq<seq<byte>>) {
    && Split(frags) && |wire| == |frags|
    && forall i :: 0 <= i < |wire| ==> Parse(wire[i]) == Ok(frags[i])
  }

  /** Traffic made of these datagrams and noise, in any order and multiplicity. */
  predicate Traffic(wire: seq<seq<byte>>, arrivals: seq<seq<byte>>) {
    forall k :: 0 <= k < |arrivals| ==> Noise(arrivals[k]) || arrivals[k] in wire
  }

  predicate AllArrived(wire: seq<seq<byte>>, arrivals: seq<seq<byte>>) {
    forall i :: 0 <= i < |wire| ==> wire[i] in arrivals
  }

  lemma {:induction false} OneArrival(
      frags: seq<UdpMessage>, wire: seq<seq<byte>>, datagram: seq<byte>)
    returns (i: nat)
    requires Carrier(frags, wire) && !Noise(datagram) && datagram in wire
    ensures i < |frags| && wire[i] == datagram && Parse(datagram).msg == frags[i] && frags[i].fragId == i
  {
    i :| 0 <= i < |wire| && wire[i] == datagram;
  }

  lemma {:induction false} ArrivalsAreMessages(frags: seq<UdpMessage>, wire: seq<seq<byte>>, arrivals: seq<seq<byte>>)
    requires Carrier(frags, wire) && Traffic(wire, arrivals)
    ensures Only(frags, Messages(arrivals))
    ensures forall i :: 0 <= i < |wire| ==> (wire[i] in arrivals <==> frags[i] in Messages(arrivals))
    decreases |arrivals|
  {
    if arrivals != [] {
      var before, last := arrivals[..|arrivals| - 1], arrivals[|arrivals| - 1];
      assert arrivals == before + [last];
      ArrivalsAreMessages(frags, wire, before);
      forall i | 0 <= i < |wire|
        ensures wire[i] == last <==> Parse(last) == Ok(frags[i])
      {
        assert IsFragment(frags[i]);
        if Parse(last) == Ok(frags[i]) {
          var j := OneArrival(frags, wire, last);
        }
      }
      if !Noise(last) {
        var j := OneArrival(frags, wire, last);
      }
    }
  }

  /**
    Whatever the order, the duplicates and the noise: the arrival that brings the last missing
    fragment returns the whole payload; every other fragment returns nothing.
   */
  lemma {:induction false} Arrival(
      frags: seq<UdpMessage>, wire: seq<seq<byte>>, d: State, arrivals: seq<seq<byte>>, k: nat)
    requires Carrier(frags, wire) && Traffic(wire, arrivals) && OffPacket(d, frags) && k < |arrivals|
    ensures !Noise(arrivals[k]) ==>
              Output(d, arrivals, k) ==
              if AllArrived(wire, arrivals[..k + 1]) && !AllArrived(wire, arrivals[..k])
              then Some(Parse(arrivals[k]).msg.(fragId := 0, fragCount := 1, data := Concat(Payloads(frags))))
              else None
  {
    var before, now, last := arrivals[..k], arrivals[..k + 1], arrivals[k];
    if !Noise(last) {
      assert now[..k] == before;
      ArrivalsAreMessages(frags, wire, before);
      ArrivalsAreMessages(frags, wire, now);
      var i := OneArrival(frags, wire, last);
      FragmentOutcome(frags, d, Messages(before), frags[i]);
    }
  }

  lemma {:induction false} LastMissing(wire: seq<seq<byte>>, arrivals: seq<seq<byte>>) returns (k: nat)
    requires wire != [] && AllArrived(wire, arrivals)
    ensures k < |arrivals| && arrivals[k] in wire
    ensures AllArrived(wire, arrivals[..k + 1]) && !AllArrived(wire, arrivals[..k])
    decreases |arrivals|
  {
    assert wire[0] in arrivals;
    var before, last := arrivals[..|arrivals| - 1], arrivals[|arrivals| - 1];
    assert arrivals == before + [last];
    if AllArrived(wire, before) {
      k := LastMissing(wire, before);
      assert before[..k + 1] == arrivals[..k + 1] && before[..k] == arrivals[..k];
    } else {
      k := |before|;
      assert arrivals[..k + 1] == arrivals;
    }
  }

  lemma {:induction false} ArrivedMonotone(wire: seq<seq<byte>>, arrivals: seq<seq<byte>>, j: nat, k: nat)
    requires j <= k <= |arrivals|
    ensures AllArrived(wire, arrivals[..j]) ==> AllArrived(wire, arrivals[..k])
  {
    assert arrivals[..k][..j] == arrivals[..j];
  }

  // ----- the message that was sent -----

  /** A message that a peer accepts and that is cut into 2 to 255 fragments for this path. */
  predicate Splits(m: UdpMessage, maxSize: nat) {
    && m.Parseable()
    && m.HeaderSize() < maxSize < m.Size()
    && |m.data| <= 255 * (maxSize - m.HeaderSize())
  }

  /** The serialized form of each message. */
  function Wire(ms: seq<UdpMessage>): (ds: seq<seq<byte>>)
    requires forall i :: 0 <= i < |ms| ==> ms[i].Typed()
    ensures |ds| == |ms| && forall i :: 0 <= i < |ms| ==> ds[i] == Encode(ms[i])
  {
    seq(|ms|, i requires 0 <= i < |ms| => Encode(ms[i]))
  }

  lemma {:induction false} FragmentsTyped(m: UdpMessage, maxSize: nat)
    requires m.Typed()
    ensures forall i :: 0 <= i < |Fragments(m, maxSize)| ==> Fragments(m, maxSize)[i].Typed()
  {
  }

  /** The datagrams `send` produces for the message on a path of this size. */
  function Datagrams(m: UdpMessage, maxSize: nat): seq<seq<byte>>
    requires m.Typed()
  {
    FragmentsTyped(m, maxSize);
    Wire(Fragments(m, maxSize))
  }

  lemma {:induction false} SplitMessageCarrier(m: UdpMessage, maxSize: nat)
    requires Splits(m, maxSize)
    ensures m.Typed()
    ensures Carrier(Fragments(m, maxSize), Datagrams(m, maxSize))
    ensures Concat(Payloads(Fragments(m, maxSize))) == m.data
  {
    var frags := Fragments(m, maxSize);
    NumberedIff(m, maxSize);
    PiecesConcat(m.data, maxSize - m.HeaderSize());
    LosslessAndFitting(m, maxSize);
    forall i | 0 <= i < |frags|
      ensures Parse(Encode(frags[i])) == Ok(frags[i]) && SamePacket(frags[0], frags[i])
    {
      RoundTrip(frags[i]);
    }
  }

  /** Traffic that contains every datagram of a message returns that message exactly once. */
  lemma {:induction false} DeliveredExactlyOnce(
      m: UdpMessage, maxSize: nat, d: State, arrivals: seq<seq<byte>>)
    returns (k: nat)
    requires Splits(m, maxSize) && m.Typed()
    requires Traffic(Datagrams(m, maxSize), arrivals) && AllArrived(Datagrams(m, maxSize), arrivals)
    requires d.pktId != m.packetId || |d.slots| != |Fragments(m, maxSize)|
    ensures k < |arrivals| && !Noise(arrivals[k])
    ensures !AllArrived(Datagrams(m, maxSize), arrivals[..k]) && AllArrived(Datagrams(m, maxSize), arrivals[..k + 1])
    ensures Output(d, arrivals, k) == Some(m.(fragId := 0, fragCount := 1))
    ensures forall j :: 0 <= j < |arrivals| && j != k && !Noise(arrivals[j]) ==> Output(d, arrivals, j) == None
  {
    var frags, wire := Fragments(m, maxSize), Datagrams(m, maxSize);
    SplitMessageCarrier(m, maxSize);
    LosslessAndFitting(m, maxSize);
    k := LastMissing(wire, arrivals);
    assert IsFragment(frags[0]) && OffPacket(d, frags);
    assert !Noise(arrivals[k]) by {
      var i :| 0 <= i < |wire| && wire[i] == arrivals[k];
      assert IsFragment(frags[i]);
    }
    var i := OneArrival(frags, wire, arrivals[k]);
    Arrival(frags, wire, d, arrivals, k);
    forall j | 0 <= j < |arrivals| && j != k && !Noise(arrivals[j])
      ensures Output(d, arrivals, j) == None
    {
      Arrival(frags, wire, d, arrivals, j);
      if j < k {
        ArrivedMonotone(wire, arrivals, j + 1, k);
      } else {
        ArrivedMonotone(wire, arrivals, k + 1, j);
      }
    }
  }
}
