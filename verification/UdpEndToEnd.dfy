/** From the datagrams of one `send`, through parsing, routing and queueing, to what a session's reader returns. */
module UdpEndToEnd {
  import opened Bytes
  import opened UdpCodec
  import opened UdpSessions
  import Defrag
  import Frag
  import UdpRelay
  import UdpSend

  // ----- datagrams and inbound messages -----

  /** The messages handed to the session table, in order. */
  function Delivered(es: seq<Event>): seq<UdpMessage> {
    if es == [] then []
    else
      var before, e := Delivered(es[..|es| - 1]), es[|es| - 1];
      if e.Inbound? then before + [e.msg] else before
  }

  function OfSession(ms: seq<UdpMessage>, id: u32): seq<UdpMessage> {
    if ms == [] then []
    else
      var before, m := OfSession(ms[..|ms| - 1], id), ms[|ms| - 1];
      if m.sessionId == id then before + [m] else before
  }

  predicate Addresses(datagram: seq<byte>, id: u32) {
    Parse(datagram).Ok? && Parse(datagram).msg.sessionId == id
  }

  /** The datagrams that parse to a message of this session. */
  function ForSession(arrivals: seq<seq<byte>>, id: u32): seq<seq<byte>> {
    if arrivals == [] then []
    else
      var before, last := ForSession(arrivals[..|arrivals| - 1], id), arrivals[|arrivals| - 1];
      if Addresses(last, id) then before + [last] else before
  }

  lemma {:induction false} OfSessionNext(ms: seq<UdpMessage>, m: UdpMessage, id: u32)
    ensures OfSession(ms + [m], id) == OfSession(ms, id) + if m.sessionId == id then [m] else []
  {
    assert (ms + [m])[..|ms|] == ms;
  }

  lemma {:induction false} AddressedIsOfSession(es: seq<Event>, id: u32)
    ensures Addressed(es, id) == OfSession(Delivered(es), id)
  {
    if es != [] {
      var before, e := es[..|es| - 1], es[|es| - 1];
      AddressedIsOfSession(before, id);
      if e.Inbound? {
        OfSessionNext(Delivered(before), e.msg, id);
      }
    }
  }

  lemma {:induction false} MessagesNext(arrivals: seq<seq<byte>>, datagram: seq<byte>)
    ensures UdpRelay.Messages(arrivals + [datagram]) ==
            UdpRelay.Messages(arrivals) + if Parse(datagram).Ok? then [Parse(datagram).msg] else []
  {
    assert (arrivals + [datagram])[..|arrivals|] == arrivals;
  }

  lemma {:induction false} MessagesOfSession(arrivals: seq<seq<byte>>, id: u32)
    ensures UdpRelay.Messages(ForSession(arrivals, id)) == OfSession(UdpRelay.Messages(arrivals), id)
  {
    if arrivals != [] {
      var before, last := arrivals[..|arrivals| - 1], arrivals[|arrivals| - 1];
      MessagesOfSession(before, id);
      if Parse(last).Ok? {
        OfSessionNext(UdpRelay.Messages(before), Parse(last).msg, id);
        MessagesNext(ForSession(before, id), last);
      }
    }
  }

  lemma {:induction false} ForSessionHolds(arrivals: seq<seq<byte>>, id: u32, datagram: seq<byte>)
    requires Addresses(datagram, id) && datagram in arrivals
    ensures datagram in ForSession(arrivals, id)
  {
    var before, last := arrivals[..|arrivals| - 1], arrivals[|arrivals| - 1];
    if last != datagram {
      assert arrivals == before + [last];
      ForSessionHolds(before, id, datagram);
    }
  }

  // ----- nothing addressed to the session is lost -----

  /** Received so far, read or not. */
  function Got(s: Manager, c: nat): seq<UdpMessage>
    requires c < |s.conns|
  {
    s.conns[c].taken + s.conns[c].queue
  }

  /** The session takes this event's message, if the event brings it one. */
  predicate Accepts(s: Manager, c: nat, e: Event)
    requires c < |s.conns|
  {
    e.Inbound? && e.msg.sessionId == s.conns[c].id ==>
      s.Live(c) && |s.conns[c].queue| < UDP_MESSAGE_CHAN_SIZE
  }

  /** Whenever a message for the session comes in, the session is live and has room for it. */
  predicate AlwaysRoom(s: Manager, c: nat, es: seq<Event>) {
    es == [] ||
    (var before := es[..|es| - 1];
     AlwaysRoom(s, c, before) && c < |Run(s, before).conns| && Accepts(Run(s, before), c, es[|es| - 1]))
  }

  lemma {:induction false} GotStep(s: Manager, c: nat, e: Event)
    requires TableOk(s) && c < |s.conns|
    ensures var t := Step(s, e);
            && c < |t.conns| && t.conns[c].id == s.conns[c].id
            && Got(t, c) == Got(s, c) +
                 if e.Inbound? && e.msg.sessionId == s.conns[c].id && Accepts(s, c, e) then [e.msg] else []
  {
    if e.Recv? {
      if e.conn < |s.conns| {
        ReadConserves(s, e.conn);
      }
    } else if e.Inbound? && s.Live(c) && e.msg.sessionId == s.conns[c].id {
      Associate(s.conns[c].taken, s.conns[c].queue, [e.msg]);
    }
  }

  /** A session receives every message addressed to it exactly when it always had room for the next. */
  lemma {:induction false} NothingLostIff(s: Manager, c: nat, es: seq<Event>)
    requires TableOk(s) && c < |s.conns|
    ensures var t := Run(s, es);
            && TableOk(t) && c < |t.conns| && t.conns[c].id == s.conns[c].id
            && |Got(t, c)| <= |Got(s, c) + Addressed(es, s.conns[c].id)|
            && (Got(t, c) == Got(s, c) + Addressed(es, s.conns[c].id) <==> AlwaysRoom(s, c, es))
  {
    LostWithoutRoom(s, c, es);
  }

  lemma {:induction false} LostWithoutRoom(s: Manager, c: nat, es: seq<Event>)
    requires TableOk(s) && c < |s.conns|
    ensures var t := Run(s, es);
            && TableOk(t) && c < |t.conns| && t.conns[c].id == s.conns[c].id
            && if AlwaysRoom(s, c, es) then Got(t, c) == Got(s, c) + Addressed(es, s.conns[c].id)
               else |Got(t, c)| < |Got(s, c) + Addressed(es, s.conns[c].id)|
    decreases |es|
  {
    if es == [] {
      assert Got(s, c) + [] == Got(s, c);
    } else {
      var before, e := es[..|es| - 1], es[|es| - 1];
      LostWithoutRoom(s, c, before);
      TableStep(Run(s, before), e);
      GotStep(Run(s, before), c, e);
    }
  }

  /** n arrivals of one message in a row, nobody reading. */
  function Flood(m: UdpMessage, n: nat): (es: seq<Event>)
    ensures |es| == n
  {
    if n == 0 then [] else Flood(m, n - 1) + [Inbound(m)]
  }

  const ONE_SESSION := Manager(map[1 := 0], 2, false, [Conn(1, [], [], Defrag.INITIAL, [])])

  /** The one session's state with n messages waiting. */
  predicate Waiting(t: Manager, n: nat) {
    && t == ONE_SESSION.(conns := t.conns) && |t.conns| == 1
    && t.conns[0].id == 1 && t.conns[0].taken == [] && |t.conns[0].queue| == n
  }

  lemma {:induction false} OneMoreWaiting(t: Manager, n: nat, m: UdpMessage)
    requires Waiting(t, n) && m.sessionId == 1
    ensures Waiting(Step(t, Inbound(m)), if n < UDP_MESSAGE_CHAN_SIZE then n + 1 else n)
    ensures Accepts(t, 0, Inbound(m)) <==> n < UDP_MESSAGE_CHAN_SIZE
  {
  }

  lemma {:induction false} FloodNext(m: UdpMessage, n: nat)
    requires m.sessionId == 1
    ensures var before, now := Flood(m, n), Flood(m, n + 1);
            && Run(ONE_SESSION, now) == Step(Run(ONE_SESSION, before), Inbound(m))
            && Addressed(now, 1) == Addressed(before, 1) + [m]
            && (AlwaysRoom(ONE_SESSION, 0, now) <==>
                && AlwaysRoom(ONE_SESSION, 0, before) && 0 < |Run(ONE_SESSION, before).conns|
                && Accepts(Run(ONE_SESSION, before), 0, Inbound(m)))
  {
    var now := Flood(m, n + 1);
    assert now[..n] == Flood(m, n) && now[n] == Inbound(m);
  }

  /** After n arrivals all of them wait. */
  predicate AllWait(m: UdpMessage, n: nat) {
    && Waiting(Run(ONE_SESSION, Flood(m, n)), n)
    && AlwaysRoom(ONE_SESSION, 0, Flood(m, n)) && |Addressed(Flood(m, n), 1)| == n
  }

  lemma {:induction false} AllWaitNext(m: UdpMessage, n: nat)
    requires m.sessionId == 1 && n < UDP_MESSAGE_CHAN_SIZE && AllWait(m, n)
    ensures AllWait(m, n + 1)
  {
    FloodNext(m, n);
    OneMoreWaiting(Run(ONE_SESSION, Flood(m, n)), n, m);
  }

  lemma {:induction false} Flooded(m: UdpMessage, n: nat)
    requires m.sessionId == 1 && n <= UDP_MESSAGE_CHAN_SIZE
    ensures AllWait(m, n)
  {
    if n > 0 {
      Flooded(m, n - 1);
      AllWaitNext(m, n - 1);
    }
  }

  /** A run that loses one: a fresh session, and 1025 messages for it before its reader looks. */
  lemma {:induction false} FullQueueDrops(m: UdpMessage)
    requires m.sessionId == 1
    ensures Run(INITIAL, [NewUdp]) == ONE_SESSION
    ensures var es := Flood(m, UDP_MESSAGE_CHAN_SIZE + 1);
            && !AlwaysRoom(ONE_SESSION, 0, es)
            && |Run(ONE_SESSION, es).conns| == 1
            && |Got(Run(ONE_SESSION, es), 0)| + 1 == |Addressed(es, 1)|
  {
    assert [NewUdp][..0] == [];
    assert Run(INITIAL, [NewUdp]) == Step(INITIAL, NewUdp);
    var n := UDP_MESSAGE_CHAN_SIZE;
    Flooded(m, n);
    FloodNext(m, n);
    OneMoreWaiting(Run(ONE_SESSION, Flood(m, n)), n, m);
  }

  // ----- the whole way -----

  lemma {:induction false} RunConcat(s: Manager, a: seq<Event>, b: seq<Event>)
    ensures Run(s, a + b) == Run(Run(s, a), b)
    decreases |b|
  {
    if b == [] {
      assert a + b == a;
    } else {
      RunConcat(s, a, b[..|b| - 1]);
      assert (a + b)[..|a + b| - 1] == a + b[..|b| - 1];
    }
  }

  /** A session whose queue was always read in time has taken exactly the messages of its datagrams. */
  lemma {:induction false} TakenFromDatagrams(es: seq<Event>, more: seq<Event>, c: nat, arrivals: seq<seq<byte>>)
    requires c < |Run(INITIAL, es).conns| && AlwaysRoom(Run(INITIAL, es), c, more)
    requires Delivered(more) == UdpRelay.Messages(arrivals)
    ensures var s, t := Run(INITIAL, es), Run(INITIAL, es + more);
            && c < |t.conns|
            && Got(t, c) == Got(s, c) + UdpRelay.Messages(ForSession(arrivals, s.conns[c].id))
  {
    var s := Run(INITIAL, es);
    EveryRun(es);
    NothingLostIff(s, c, more);
    AddressedIsOfSession(more, s.conns[c].id);
    MessagesOfSession(arrivals, s.conns[c].id);
    RunConcat(INITIAL, es, more);
  }

  /** The datagrams of a split message are its session's, and parse to its fragments. */
  lemma {:induction false} OwnDatagrams(m: UdpMessage, packetId: u16, maxSize: nat, arrivals: seq<seq<byte>>)
    requires m.Typed() && UdpSend.Deliverable(m, maxSize) && maxSize < m.Size()
    requires UdpRelay.AllArrived(UdpSend.Intended(m, packetId, maxSize), arrivals)
    ensures UdpRelay.Carrier(Frag.Fragments(m.(packetId := packetId), maxSize), UdpSend.Intended(m, packetId, maxSize))
    ensures UdpRelay.AllArrived(UdpSend.Intended(m, packetId, maxSize), ForSession(arrivals, m.sessionId))
  {
    var p, wire := m.(packetId := packetId), UdpSend.Intended(m, packetId, maxSize);
    assert m.HeaderSize() == p.HeaderSize() && m.Size() == p.Size();
    UdpRelay.SplitMessageCarrier(p, maxSize);
    forall i | 0 <= i < |wire|
      ensures wire[i] in ForSession(arrivals, m.sessionId)
    {
      assert Parse(wire[i]).msg.sessionId == m.sessionId;
      ForSessionHolds(arrivals, m.sessionId, wire[i]);
    }
  }

  /**
    A payload cut by `send`, from the wire to the session's reader: the pump parses the connection's
    datagrams, in whatever order they came, duplicated and mixed with those of other sessions and
    with noise, and routes them; the session had room for its own; its reader caught up. Then the
    reader has returned the payload with its address exactly once more than the unfragmented
    messages, at the point where the last fragment came in.
   */
  lemma {:induction false} SplitReachesReader(
      es: seq<Event>, more: seq<Event>, c: nat,
      m: UdpMessage, packetId: u16, maxSize: nat, arrivals: seq<seq<byte>>)
    returns (k: nat, r: UdpMessage)
    requires m.Typed() && UdpSend.Deliverable(m, maxSize) && maxSize < m.Size()
    requires c < |Run(INITIAL, es).conns| && m.sessionId == Run(INITIAL, es).conns[c].id
    requires AlwaysRoom(Run(INITIAL, es), c, more) && Delivered(more) == UdpRelay.Messages(arrivals)
    requires UdpRelay.AllArrived(UdpSend.Intended(m, packetId, maxSize), arrivals)
    requires UdpRelay.Traffic(UdpSend.Intended(m, packetId, maxSize), ForSession(arrivals, m.sessionId))
    requires UdpSend.Clear(Defrag.After(Defrag.INITIAL, Got(Run(INITIAL, es), c)), m, packetId, maxSize)
    ensures c < |Run(INITIAL, es + more).conns|
    ensures UdpSend.Carries(Some(r), m)
    ensures var prior, h := Got(Run(INITIAL, es), c), UdpRelay.Messages(ForSession(arrivals, m.sessionId));
            var frags := Frag.Fragments(m.(packetId := packetId), maxSize);
            && k < |h| && !UdpRelay.AllIn(frags, h[..k]) && UdpRelay.AllIn(frags, h[..k + 1])
            && (Run(INITIAL, es + more).conns[c].queue == [] ==>
                  Run(INITIAL, es + more).conns[c].out ==
                  Returned(prior) + (Unfragmented(h[..k]) + [r] + Unfragmented(h[k + 1..])))
  {
    var p, wire := m.(packetId := packetId), UdpSend.Intended(m, packetId, maxSize);
    var prior, own := Got(Run(INITIAL, es), c), ForSession(arrivals, m.sessionId);
    var frags, h := Frag.Fragments(p, maxSize), UdpRelay.Messages(own);
    var d := Defrag.After(Defrag.INITIAL, prior);
    TakenFromDatagrams(es, more, c, arrivals);
    OwnDatagrams(m, packetId, maxSize, arrivals);
    UdpRelay.ArrivalsAreMessages(frags, wire, own);
    UdpSend.SplitsWhenDeliverable(m, packetId, maxSize, d);
    FragmentsOf(m, packetId, maxSize);
    ReaderReturns(es + more, c, prior, h);
    k := ReturnedOnceComplete(frags, d, h);
    r := Reassembled(h[k], frags);
    CompletingFragment(frags, h, k);
  }

  /** How many arrivals parse to this very message. */
  function Copies(arrivals: seq<seq<byte>>, m: UdpMessage): nat {
    if arrivals == [] then 0
    else Copies(arrivals[..|arrivals| - 1], m) + (if Parse(arrivals[|arrivals| - 1]) == Ok(m) then 1 else 0)
  }

  lemma {:induction false} CopiesAreMessages(arrivals: seq<seq<byte>>, m: UdpMessage)
    ensures multiset(UdpRelay.Messages(ForSession(arrivals, m.sessionId)))[m] == Copies(arrivals, m)
  {
    if arrivals != [] {
      var before, last := arrivals[..|arrivals| - 1], arrivals[|arrivals| - 1];
      CopiesAreMessages(before, m);
      if Addresses(last, m.sessionId) {
        MessagesNext(ForSession(before, m.sessionId), last);
      }
    }
  }

  lemma {:induction false} SomeCopy(arrivals: seq<seq<byte>>, m: UdpMessage, datagram: seq<byte>)
    requires datagram in arrivals && Parse(datagram) == Ok(m)
    ensures Copies(arrivals, m) >= 1
  {
    var before, last := arrivals[..|arrivals| - 1], arrivals[|arrivals| - 1];
    if last != datagram {
      assert arrivals == before + [last];
      SomeCopy(before, m, datagram);
    }
  }

  /** No fragment among these messages could be put together to something with this packet id. */
  predicate NoFragmentOf(h: seq<UdpMessage>, packetId: u16) {
    forall j :: 0 <= j < |h| && Defrag.IsFragment(h[j]) ==> h[j].packetId != packetId
  }

  /** An unfragmented message is returned each time it is taken, and otherwise only as the sum of fragments. */
  lemma {:induction false} ReturnedPerCopy(d: Defrag.State, h: seq<UdpMessage>, m: UdpMessage)
    requires m.fragCount <= 1
    ensures multiset(ReturnedFrom(d, h))[m] >= multiset(h)[m]
    ensures NoFragmentOf(h, m.packetId) ==> multiset(ReturnedFrom(d, h))[m] == multiset(h)[m]
    decreases |h|
  {
    if h != [] {
      var before, last := h[..|h| - 1], h[|h| - 1];
      assert h == before + [last];
      ReturnedPerCopy(d, before, m);
      assert NoFragmentOf(h, m.packetId) ==> NoFragmentOf(before, m.packetId);
      OutputOrigin(Defrag.After(d, before), last);
      CountNext(before, last, m);
      var out := Defrag.Step(Defrag.After(d, before), last).out;
      if out.Some? {
        CountNext(ReturnedFrom(d, before), out.value, m);
      }
    }
  }

  /** What one message makes the defragger return: itself, nothing, or a sum under its own packet id. */
  lemma {:induction false} OutputOrigin(d: Defrag.State, m: UdpMessage)
    ensures var out := Defrag.Step(d, m).out;
            if m.fragCount <= 1 then out == Some(m)
            else out.Some? ==> Defrag.IsFragment(m) && out.value.packetId == m.packetId
  {
  }

  lemma {:induction false} CountNext(s: seq<UdpMessage>, x: UdpMessage, m: UdpMessage)
    ensures multiset(s + [x])[m] == multiset(s)[m] + if x == m then 1 else 0
  {
  }

  /**
    The same way for a payload that went out whole: among what the reader returned since then, there
    is one copy of it per arrival of it, whatever else came in, and exactly so when no other packet of
    the session uses its packet id (`send` gives whole messages the id 0, and fragments never).
   */
  lemma {:induction false} WholeReachesReader(
      es: seq<Event>, more: seq<Event>, c: nat,
      m: UdpMessage, packetId: u16, maxSize: nat, arrivals: seq<seq<byte>>)
    requires m.Typed() && UdpSend.Deliverable(m, maxSize) && m.Size() <= maxSize && m.fragCount == 1
    requires c < |Run(INITIAL, es).conns| && m.sessionId == Run(INITIAL, es).conns[c].id
    requires AlwaysRoom(Run(INITIAL, es), c, more) && Delivered(more) == UdpRelay.Messages(arrivals)
    requires UdpRelay.AllArrived(UdpSend.Intended(m, packetId, maxSize), arrivals)
    ensures c < |Run(INITIAL, es + more).conns| && Copies(arrivals, m) >= 1
    ensures var out, before := Run(INITIAL, es + more).conns[c].out, Returned(Got(Run(INITIAL, es), c));
            Run(INITIAL, es + more).conns[c].queue == [] ==>
              && before <= out
              && multiset(out[|before|..])[m] >= Copies(arrivals, m)
              && (NoFragmentOf(UdpRelay.Messages(ForSession(arrivals, m.sessionId)), m.packetId) ==>
                    multiset(out[|before|..])[m] == Copies(arrivals, m))
  {
    var prior, own := Got(Run(INITIAL, es), c), ForSession(arrivals, m.sessionId);
    var d := Defrag.After(Defrag.INITIAL, prior);
    RoundTrip(m);
    assert UdpSend.Intended(m, packetId, maxSize)[0] == Encode(m);
    SomeCopy(arrivals, m, Encode(m));
    TakenFromDatagrams(es, more, c, arrivals);
    ReaderReturns(es + more, c, prior, UdpRelay.Messages(own));
    CopiesAreMessages(arrivals, m);
    ReturnedPerCopy(d, UdpRelay.Messages(own), m);
    NewOutputs(Returned(prior), ReturnedFrom(d, UdpRelay.Messages(own)));
  }

  lemma {:induction false} NewOutputs(before: seq<UdpMessage>, new_: seq<UdpMessage>)
    ensures before <= before + new_ && (before + new_)[|before|..] == new_
  {
  }

  /** The fragments put together are the payload, under the message's address and session. */
  lemma {:induction false} FragmentsOf(m: UdpMessage, packetId: u16, maxSize: nat)
    requires UdpSend.Deliverable(m, maxSize) && maxSize < m.Size()
    ensures var frags := Frag.Fragments(m.(packetId := packetId), maxSize);
            && Frag.Concat(Frag.Payloads(frags)) == m.data
            && frags != [] && frags[0].packetId == packetId && frags[0].fragCount == |frags|
            && forall i :: 0 <= i < |frags| ==> frags[i].addr == m.addr && frags[i].sessionId == m.sessionId
  {
    var p := m.(packetId := packetId);
    assert m.HeaderSize() == p.HeaderSize() && m.Size() == p.Size();
    Frag.LosslessAndFitting(p, maxSize);
    Frag.NumberedIff(p, maxSize);
  }

  lemma {:induction false} CompletingFragment(frags: seq<UdpMessage>, h: seq<UdpMessage>, k: nat)
    requires UdpRelay.Split(frags) && UdpRelay.Only(frags, h) && k < |h|
    requires UdpRelay.AllIn(frags, h[..k + 1]) && !UdpRelay.AllIn(frags, h[..k])
    ensures h[k] in frags
  {
    assert h[..k + 1] == h[..k] + [h[k]];
    var i :| 0 <= i < |frags| && frags[i] !in h[..k];
    assert frags[i] in h[..k + 1];
  }

  lemma {:induction false} ReaderReturns(es: seq<Event>, c: nat, prior: seq<UdpMessage>, h: seq<UdpMessage>)
    requires c < |Run(INITIAL, es).conns| && Got(Run(INITIAL, es), c) == prior + h
    ensures Run(INITIAL, es).conns[c].queue == [] ==>
              Run(INITIAL, es).conns[c].out == Returned(prior) + ReturnedFrom(Defrag.After(Defrag.INITIAL, prior), h)
  {
    EveryRun(es);
    var conn := Run(INITIAL, es).conns[c];
    assert ConnOk(conn, es);
    if conn.queue == [] {
      assert conn.taken == conn.taken + conn.queue;
      ReturnedConcat(Defrag.INITIAL, prior, h);
    }
  }
}
