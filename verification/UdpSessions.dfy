/**
  The UDP session manager: a shared table of session queues driven by session creation, closing,
  inbound messages, transport failure and readers, each atomic under the table's lock.
 */
module UdpSessions {
  import opened Bytes
  import opened UdpCodec
  import Defrag
  import Frag
  import UdpRelay

  const UDP_MESSAGE_CHAN_SIZE: nat := 1024
  const ID_SPACE: nat := 0x1_0000_0000

  /** A session as its owner sees it; `taken` and `out` are what it has received and returned so far. */
  datatype Conn = Conn(
    id: u32,
    queue: seq<UdpMessage>,
    taken: seq<UdpMessage>,
    defrag: Defrag.State,
    out: seq<UdpMessage>)
  {
    /** The reader takes the oldest queued message and feeds it to the session's defragger. */
    function Recv(): Conn
      requires queue != []
    {
      var fed := Defrag.Step(defrag, queue[0]);
      Conn(id, queue[1..], taken + [queue[0]], fed.state,
           if fed.out.Some? then out + [fed.out.value] else out)
    }
  }

  /** Sessions are numbered by creation, so that the wrap-around of ids is part of the model. */
  datatype Manager = Manager(table: map<u32, nat>, nextId: u32, closed: bool, conns: seq<Conn>)
  {
    /** The manager still holds this session's sender. */
    predicate Live(c: nat) {
      c < |conns| && conns[c].id in table && table[conns[c].id] == c
    }
  }

  const INITIAL := Manager(map[], 1, false, [])

  datatype Event = NewUdp | Close(conn: nat) | Inbound(msg: UdpMessage) | TransportError | Recv(conn: nat)

  function Push(s: Manager, c: nat, m: UdpMessage): Manager
    requires c < |s.conns|
  {
    if |s.conns[c].queue| < UDP_MESSAGE_CHAN_SIZE
    then s.(conns := s.conns[c := s.conns[c].(queue := s.conns[c].queue + [m])])
    else s
  }

  function Step(s: Manager, e: Event): Manager {
    match e
    case NewUdp =>
      if s.closed then s
      else Manager(s.table[s.nextId := |s.conns|], (s.nextId + 1) % ID_SPACE, false,
                   s.conns + [Conn(s.nextId, [], [], Defrag.INITIAL, [])])
    case Close(c) => if c < |s.conns| then s.(table := s.table - {s.conns[c].id}) else s
    case Inbound(m) =>
      if m.sessionId in s.table && s.table[m.sessionId] < |s.conns|
      then Push(s, s.table[m.sessionId], m) else s
    case TransportError => s.(table := map[], closed := true)
    case Recv(c) =>
      if c < |s.conns| && s.conns[c].queue != []
      then s.(conns := s.conns[c := s.conns[c].Recv()]) else s
  }

  function Run(s: Manager, es: seq<Event>): Manager {
    if es == [] then s else Step(Run(s, es[..|es| - 1]), es[|es| - 1])
  }

  // ----- what every run keeps -----

  /** The inbound messages that carry this id, in arrival order. */
  function Addressed(es: seq<Event>, id: u32): seq<UdpMessage> {
    if es == [] then []
    else
      var before, e := Addressed(es[..|es| - 1], id), es[|es| - 1];
      if e.Inbound? && e.msg.sessionId == id then before + [e.msg] else before
  }

  /** a can be obtained from b by leaving elements out. */
  predicate Subsequence(a: seq<UdpMessage>, b: seq<UdpMessage>) {
    a == [] ||
    (b != [] && ((a[|a| - 1] == b[|b| - 1] && Subsequence(a[..|a| - 1], b[..|b| - 1]))
                 || Subsequence(a, b[..|b| - 1])))
  }

  /** What a reader whose defragger is in state d returns on these messages. */
  function ReturnedFrom(d: Defrag.State, taken: seq<UdpMessage>): seq<UdpMessage> {
    if taken == [] then []
    else
      var before, m := taken[..|taken| - 1], taken[|taken| - 1];
      var out := Defrag.Step(Defrag.After(d, before), m).out;
      if out.Some? then ReturnedFrom(d, before) + [out.value] else ReturnedFrom(d, before)
  }

  /** What a reader that has taken these messages has returned. */
  function Returned(taken: seq<UdpMessage>): seq<UdpMessage> {
    ReturnedFrom(Defrag.INITIAL, taken)
  }

  predicate ConnOk(c: Conn, es: seq<Event>) {
    && |c.queue| <= UDP_MESSAGE_CHAN_SIZE
    && Subsequence(c.taken + c.queue, Addressed(es, c.id))
    && c.defrag == Defrag.After(Defrag.INITIAL, c.taken)
    && c.out == Returned(c.taken)
  }

  /** The id given to the c-th session: 1, 2, 3, ... wrapping at 32 bits. */
  function IdAt(c: nat): u32 {
    (c + 1) % ID_SPACE
  }

  lemma {:induction false} IdAtRepeats(i: nat, j: nat)
    requires i <= j
    ensures IdAt(i) == IdAt(j) <==> (j - i) % ID_SPACE == 0
  {
  }

  predicate TableOk(s: Manager) {
    && s.nextId == IdAt(|s.conns|)
    && (forall c :: 0 <= c < |s.conns| ==> s.conns[c].id == IdAt(c))
    && (forall id :: id in s.table ==> s.table[id] < |s.conns| && s.conns[s.table[id]].id == id)
    && (s.closed ==> s.table == map[])
  }

  lemma {:induction false} TableStep(s: Manager, e: Event)
    requires TableOk(s)
    ensures TableOk(Step(s, e))
    ensures s.closed ==> Step(s, e).closed
  {
    match e
    case NewUdp => TableNew(s);
    case Inbound(m) => TableInbound(s, m);
    case _ =>
  }

  lemma {:induction false} IdAfter(c: nat)
    ensures (IdAt(c) + 1) % ID_SPACE == IdAt(c + 1)
  {
  }

  lemma {:induction false} TableNew(s: Manager)
    requires TableOk(s)
    ensures TableOk(Step(s, NewUdp))
  {
    IdAfter(|s.conns|);
  }

  lemma {:induction false} TableInbound(s: Manager, m: UdpMessage)
    requires TableOk(s)
    ensures TableOk(Step(s, Inbound(m)))
  {
  }

  lemma {:induction false} SubsequenceSnoc(a: seq<UdpMessage>, b: seq<UdpMessage>, m: UdpMessage)
    requires Subsequence(a, b)
    ensures Subsequence(a + [m], b + [m]) && Subsequence(a, b + [m])
  {
    assert (a + [m])[..|a|] == a && (b + [m])[..|b|] == b;
  }

  lemma {:induction false} ConnUntouched(c: Conn, es: seq<Event>, e: Event)
    requires ConnOk(c, es)
    ensures ConnOk(c, es + [e])
  {
    assert (es + [e])[..|es|] == es;
    if e.Inbound? {
      SubsequenceSnoc(c.taken + c.queue, Addressed(es, c.id), e.msg);
    }
  }

  lemma {:induction false} AddressedNext(es: seq<Event>, m: UdpMessage)
    ensures Addressed(es + [Inbound(m)], m.sessionId) == Addressed(es, m.sessionId) + [m]
  {
    assert (es + [Inbound(m)])[..|es|] == es;
  }

  lemma {:induction false} ConnPushed(c: Conn, es: seq<Event>, m: UdpMessage)
    requires ConnOk(c, es) && m.sessionId == c.id && |c.queue| < UDP_MESSAGE_CHAN_SIZE
    ensures ConnOk(c.(queue := c.queue + [m]), es + [Inbound(m)])
  {
    AddressedNext(es, m);
    SubsequenceSnoc(c.taken + c.queue, Addressed(es, c.id), m);
    Associate(c.taken, c.queue, [m]);
  }

  lemma {:induction false} ConnReceived(c: Conn, es: seq<Event>, e: Event)
    requires ConnOk(c, es) && c.queue != []
    ensures ConnOk(c.Recv(), es + [e])
  {
    ConnUntouched(c, es, e);
    var m := c.queue[0];
    assert c.taken + [m] + c.queue[1..] == c.taken + c.queue;
    assert (c.taken + [m])[..|c.taken|] == c.taken;
  }

  predicate ConnsOk(s: Manager, es: seq<Event>) {
    forall c :: 0 <= c < |s.conns| ==> ConnOk(s.conns[c], es)
  }

  lemma {:induction false} ConnInbound(s: Manager, es: seq<Event>, m: UdpMessage, c: nat)
    requires TableOk(s) && c < |s.conns| && ConnOk(s.conns[c], es)
    ensures c < |Step(s, Inbound(m)).conns| && ConnOk(Step(s, Inbound(m)).conns[c], es + [Inbound(m)])
  {
    ConnUntouched(s.conns[c], es, Inbound(m));
    if m.sessionId in s.table && s.table[m.sessionId] == c && |s.conns[c].queue| < UDP_MESSAGE_CHAN_SIZE {
      ConnPushed(s.conns[c], es, m);
    }
  }

  lemma {:induction false} ConnStep(s: Manager, es: seq<Event>, e: Event, c: nat)
    requires TableOk(s) && c < |s.conns| && ConnOk(s.conns[c], es)
    ensures c < |Step(s, e).conns| && ConnOk(Step(s, e).conns[c], es + [e])
  {
    if e.Inbound? {
      ConnInbound(s, es, e.msg, c);
    } else {
      ConnUntouched(s.conns[c], es, e);
      if e == Recv(c) && s.conns[c].queue != [] {
        ConnReceived(s.conns[c], es, e);
      }
    }
  }

  lemma {:induction false} ConnsStep(s: Manager, es: seq<Event>, e: Event)
    requires TableOk(s) && ConnsOk(s, es)
    ensures ConnsOk(Step(s, e), es + [e])
  {
    forall c | 0 <= c < |Step(s, e).conns|
      ensures ConnOk(Step(s, e).conns[c], es + [e])
    {
      if c < |s.conns| {
        ConnStep(s, es, e, c);
      } else {
        assert Step(s, e).conns[c] == Conn(s.nextId, [], [], Defrag.INITIAL, []);
      }
    }
  }

  /**
    After every sequence of events: ids count up, the table is consistent, a closed manager has an
    empty table, every queue is bounded, every session has received an in-order subsequence of the
    messages addressed to it, and has returned exactly what its defragger yields on them.
   */
  lemma {:induction false} EveryRun(es: seq<Event>)
    ensures TableOk(Run(INITIAL, es)) && ConnsOk(Run(INITIAL, es), es)
  {
    if es != [] {
      var before, e := es[..|es| - 1], es[|es| - 1];
      EveryRun(before);
      TableStep(Run(INITIAL, before), e);
      ConnsStep(Run(INITIAL, before), before, e);
      assert es == before + [e];
    }
  }

  /** Two sessions share an id exactly when their creations are a multiple of 2^32 apart. */
  lemma {:induction false} IdsRepeatIff(es: seq<Event>, i: nat, j: nat)
    requires i < j < |Run(INITIAL, es).conns|
    ensures Run(INITIAL, es).conns[i].id == Run(INITIAL, es).conns[j].id <==> (j - i) % ID_SPACE == 0
  {
    EveryRun(es);
    IdAtRepeats(i, j);
    var s := Run(INITIAL, es);
    assert s.conns[i].id == IdAt(i) && s.conns[j].id == IdAt(j);
  }

  /** Within the id space, ids are pairwise distinct. */
  predicate Distinct(s: Manager) {
    forall i, j :: 0 <= i < j < |s.conns| ==> s.conns[i].id != s.conns[j].id
  }

  lemma {:induction false} DistinctWithinIdSpace(s: Manager)
    requires TableOk(s)
    ensures Distinct(s) <==> |s.conns| <= ID_SPACE
  {
    if |s.conns| <= ID_SPACE {
      forall i, j | 0 <= i < j < |s.conns|
        ensures s.conns[i].id != s.conns[j].id
      {
        IdAtRepeats(i, j);
      }
    } else {
      IdAtRepeats(0, ID_SPACE);
      assert s.conns[0].id == s.conns[ID_SPACE].id;
    }
  }

  // ----- what a reader sees of a split message -----

  /** The messages that were never fragmented, in order. */
  function Unfragmented(h: seq<UdpMessage>): seq<UdpMessage> {
    if h == [] then []
    else
      var before, m := Unfragmented(h[..|h| - 1]), h[|h| - 1];
      if m.fragCount <= 1 then before + [m] else before
  }

  /** The message that these fragments make up, as its last fragment to arrive delivers it. */
  function Reassembled(last: UdpMessage, frags: seq<UdpMessage>): UdpMessage {
    last.(fragId := 0, fragCount := 1, data := Frag.Concat(Frag.Payloads(frags)))
  }

  lemma {:induction false} ReturnedConcat(d: Defrag.State, a: seq<UdpMessage>, b: seq<UdpMessage>)
    ensures ReturnedFrom(d, a + b) == ReturnedFrom(d, a) + ReturnedFrom(Defrag.After(d, a), b)
    decreases |b|
  {
    if b == [] {
      assert a + b == a;
    } else {
      var before := b[..|b| - 1];
      ReturnedConcat(d, a, before);
      Defrag.AfterConcat(d, a, before);
      assert (a + b)[..|a + b| - 1] == a + before;
    }
  }

  lemma {:induction false} ReturnedStep(frags: seq<UdpMessage>, d: Defrag.State, h: seq<UdpMessage>, m: UdpMessage)
    requires UdpRelay.Split(frags) && UdpRelay.Only(frags, h + [m]) && UdpRelay.OffPacket(d, frags)
    ensures ReturnedFrom(d, h + [m]) == ReturnedFrom(d, h) +
              if m.fragCount <= 1 then [m]
              else if UdpRelay.AllIn(frags, h + [m]) && !UdpRelay.AllIn(frags, h) then [Reassembled(m, frags)]
              else []
    ensures Unfragmented(h + [m]) == Unfragmented(h) + if m.fragCount <= 1 then [m] else []
  {
    var now := h + [m];
    assert now[..|h|] == h && now[|h|] == m;
    assert UdpRelay.Only(frags, h) by {
      assert forall k :: 0 <= k < |h| ==> now[k] == h[k];
    }
    if Defrag.IsFragment(m) {
      UdpRelay.FragmentOutcome(frags, d, h, m);
    } else {
      Defrag.NonFragmentsAreInvisible(Defrag.After(d, h), m);
      assert m !in frags by {
        assert forall i :: 0 <= i < |frags| ==> Defrag.IsFragment(frags[i]);
      }
    }
  }

  /** Before the last fragment is in, the reader gets the unfragmented messages and nothing else. */
  lemma {:induction false} ReturnedWhileIncomplete(frags: seq<UdpMessage>, d: Defrag.State, h: seq<UdpMessage>)
    requires UdpRelay.Split(frags) && UdpRelay.Only(frags, h) && UdpRelay.OffPacket(d, frags)
    requires !UdpRelay.AllIn(frags, h)
    ensures ReturnedFrom(d, h) == Unfragmented(h)
    decreases |h|
  {
    if h != [] {
      var before, m := h[..|h| - 1], h[|h| - 1];
      assert h == before + [m];
      assert !UdpRelay.AllIn(frags, before);
      ReturnedWhileIncomplete(frags, d, before);
      ReturnedStep(frags, d, before, m);
    }
  }

  /** The unfragmented messages with the reassembled one in the place of its last fragment. */
  function Seen(frags: seq<UdpMessage>, h: seq<UdpMessage>, k: nat): seq<UdpMessage>
    requires k < |h|
  {
    Unfragmented(h[..k]) + [Reassembled(h[k], frags)] + Unfragmented(h[k + 1..])
  }

  lemma {:induction false} SeenStep(frags: seq<UdpMessage>, h: seq<UdpMessage>, k: nat, m: UdpMessage)
    requires k < |h|
    ensures Seen(frags, h + [m], k) == Seen(frags, h, k) + if m.fragCount <= 1 then [m] else []
  {
    var now := h + [m];
    assert now[..k] == h[..k] && now[k + 1..] == h[k + 1..] + [m];
    assert (h[k + 1..] + [m])[..|h| - k - 1] == h[k + 1..];
  }

  /** After it, the reader has got them all, with the reassembled message once, exactly at that point. */
  lemma {:induction false} ReturnedOnceComplete(
      frags: seq<UdpMessage>, d: Defrag.State, h: seq<UdpMessage>)
    returns (k: nat)
    requires UdpRelay.Split(frags) && UdpRelay.Only(frags, h) && UdpRelay.OffPacket(d, frags)
    requires UdpRelay.AllIn(frags, h)
    ensures k < |h| && UdpRelay.AllIn(frags, h[..k + 1]) && !UdpRelay.AllIn(frags, h[..k])
    ensures ReturnedFrom(d, h) == Seen(frags, h, k)
    decreases |h|
  {
    assert frags[0] in h;
    var before, m := h[..|h| - 1], h[|h| - 1];
    assert h == before + [m];
    if UdpRelay.AllIn(frags, before) {
      k := ReturnedOnceComplete(frags, d, before);
      assert before[..k + 1] == h[..k + 1] && before[..k] == h[..k];
      ReturnedAfterComplete(frags, d, before, k, m);
    } else {
      k := |before|;
      ReturnedAtLast(frags, d, before, m);
      assert h[..k + 1] == h;
    }
  }

  lemma {:induction false} ReturnedAfterComplete(
      frags: seq<UdpMessage>, d: Defrag.State, h: seq<UdpMessage>, k: nat, m: UdpMessage)
    requires UdpRelay.Split(frags) && UdpRelay.Only(frags, h + [m]) && UdpRelay.OffPacket(d, frags)
    requires UdpRelay.AllIn(frags, h) && k < |h| && ReturnedFrom(d, h) == Seen(frags, h, k)
    ensures ReturnedFrom(d, h + [m]) == Seen(frags, h + [m], k)
  {
    ReturnedStep(frags, d, h, m);
    SeenStep(frags, h, k, m);
  }

  lemma {:induction false} ReturnedAtLast(
      frags: seq<UdpMessage>, d: Defrag.State, h: seq<UdpMessage>, m: UdpMessage)
    requires UdpRelay.Split(frags) && UdpRelay.Only(frags, h + [m]) && UdpRelay.OffPacket(d, frags)
    requires UdpRelay.AllIn(frags, h + [m]) && !UdpRelay.AllIn(frags, h)
    ensures ReturnedFrom(d, h + [m]) == Seen(frags, h + [m], |h|)
  {
    assert UdpRelay.Only(frags, h) by {
      assert forall k :: 0 <= k < |h| ==> (h + [m])[k] == h[k];
    }
    ReturnedStep(frags, d, h, m);
    ReturnedWhileIncomplete(frags, d, h);
    CompletedByFragment(frags, h, m);
    SeenLast(frags, h, m);
  }

  lemma {:induction false} SeenLast(frags: seq<UdpMessage>, h: seq<UdpMessage>, m: UdpMessage)
    ensures Seen(frags, h + [m], |h|) == Unfragmented(h) + [Reassembled(m, frags)]
  {
    var now := h + [m];
    assert now[..|h|] == h && now[|h| + 1..] == [];
  }

  lemma {:induction false} CompletedByFragment(frags: seq<UdpMessage>, h: seq<UdpMessage>, m: UdpMessage)
    requires UdpRelay.Split(frags) && UdpRelay.AllIn(frags, h + [m]) && !UdpRelay.AllIn(frags, h)
    ensures m.fragCount > 1
  {
    var i :| 0 <= i < |frags| && frags[i] !in h;
    assert frags[i] in h + [m];
    assert Defrag.IsFragment(frags[i]);
  }

  /**
    In every run, whatever the session's reader took before and after: while it takes all the
    fragments of a message, in whatever order, repeated and mixed with unfragmented messages, it
    returns the unfragmented messages in order and the reassembled message exactly once, where its
    last fragment came in. Only a defragger already on the same packet is excluded.
   */
  lemma {:induction false} SessionReturnsMessage(
      es: seq<Event>, c: nat, frags: seq<UdpMessage>,
      prior: seq<UdpMessage>, h: seq<UdpMessage>, later: seq<UdpMessage>)
    returns (k: nat)
    requires c < |Run(INITIAL, es).conns| && Run(INITIAL, es).conns[c].taken == prior + h + later
    requires UdpRelay.Split(frags) && UdpRelay.Only(frags, h) && UdpRelay.AllIn(frags, h)
    requires UdpRelay.OffPacket(Defrag.After(Defrag.INITIAL, prior), frags)
    ensures k < |h| && !UdpRelay.AllIn(frags, h[..k]) && UdpRelay.AllIn(frags, h[..k + 1])
    ensures Run(INITIAL, es).conns[c].out ==
            Returned(prior) + Seen(frags, h, k) + ReturnedFrom(Defrag.After(Defrag.INITIAL, prior + h), later)
  {
    EveryRun(es);
    assert ConnOk(Run(INITIAL, es).conns[c], es);
    ReturnedConcat(Defrag.INITIAL, prior + h, later);
    ReturnedConcat(Defrag.INITIAL, prior, h);
    k := ReturnedOnceComplete(frags, Defrag.After(Defrag.INITIAL, prior), h);
  }

  // ----- isolation -----

  /** Two managers that differ at most in session c. */
  predicate AgreeExcept(s: Manager, t: Manager, c: nat) {
    && s.nextId == t.nextId && s.closed == t.closed && |s.conns| == |t.conns|
    && (forall i :: 0 <= i < |s.conns| ==> s.conns[i].id == t.conns[i].id)
    && (forall i :: 0 <= i < |s.conns| && i != c ==> s.conns[i] == t.conns[i] && s.Live(i) == t.Live(i))
  }

  lemma {:induction false} AgreeOnTarget(s: Manager, t: Manager, c: nat, m: UdpMessage)
    requires AgreeExcept(s, t, c) && TableOk(s) && TableOk(t)
    requires m.sessionId in s.table && s.table[m.sessionId] != c
    ensures m.sessionId in t.table && t.table[m.sessionId] == s.table[m.sessionId]
  {
    assert s.Live(s.table[m.sessionId]);
  }

  /** Delivering and reading move messages only: the table and every id stay. */
  lemma {:induction false} TrafficKeepsLive(s: Manager, e: Event)
    requires e.Inbound? || e.Recv?
    ensures var s' := Step(s, e);
            && s'.nextId == s.nextId && s'.closed == s.closed && |s'.conns| == |s.conns|
            && forall i :: 0 <= i < |s.conns| ==> s'.conns[i].id == s.conns[i].id && s'.Live(i) == s.Live(i)
  {
  }

  lemma {:induction false} AgreeInbound(s: Manager, t: Manager, c: nat, m: UdpMessage)
    requires AgreeExcept(s, t, c) && TableOk(s) && TableOk(t)
    ensures AgreeExcept(Step(s, Inbound(m)), Step(t, Inbound(m)), c)
  {
    TrafficKeepsLive(s, Inbound(m));
    TrafficKeepsLive(t, Inbound(m));
    if m.sessionId in s.table && s.table[m.sessionId] != c {
      AgreeOnTarget(s, t, c, m);
    } else if m.sessionId in t.table && t.table[m.sessionId] != c {
      AgreeOnTarget(t, s, c, m);
    }
  }

  /** A new session takes its id away from whoever still had it. */
  lemma {:induction false} NewTakesId(s: Manager, i: nat)
    requires TableOk(s) && !s.closed && i < |s.conns|
    ensures Step(s, NewUdp).Live(i) == (s.Live(i) && s.conns[i].id != s.nextId)
  {
  }

  lemma {:induction false} AgreeNew(s: Manager, t: Manager, c: nat)
    requires AgreeExcept(s, t, c) && TableOk(s) && TableOk(t)
    ensures AgreeExcept(Step(s, NewUdp), Step(t, NewUdp), c)
  {
    var s', t' := Step(s, NewUdp), Step(t, NewUdp);
    if !s.closed {
      forall i | 0 <= i < |s.conns| && i != c
        ensures s'.Live(i) == t'.Live(i)
      {
        NewTakesId(s, i);
        NewTakesId(t, i);
      }
    }
  }

  lemma {:induction false} AgreeClose(s: Manager, t: Manager, c: nat, x: nat)
    requires AgreeExcept(s, t, c) && TableOk(s) && TableOk(t)
    ensures AgreeExcept(Step(s, Close(x)), Step(t, Close(x)), c)
  {
    var s', t' := Step(s, Close(x)), Step(t, Close(x));
    if x < |s.conns| {
      forall i | 0 <= i < |s.conns| && i != c
        ensures s'.Live(i) == t'.Live(i)
      {
        assert s'.Live(i) == (s.Live(i) && s.conns[i].id != s.conns[x].id);
        assert t'.Live(i) == (t.Live(i) && t.conns[i].id != t.conns[x].id);
      }
    }
  }

  lemma {:induction false} AgreeRecv(s: Manager, t: Manager, c: nat, x: nat)
    requires AgreeExcept(s, t, c)
    ensures AgreeExcept(Step(s, Recv(x)), Step(t, Recv(x)), c)
  {
    TrafficKeepsLive(s, Recv(x));
    TrafficKeepsLive(t, Recv(x));
  }

  lemma {:induction false} AgreeStep(s: Manager, t: Manager, c: nat, e: Event)
    requires AgreeExcept(s, t, c) && TableOk(s) && TableOk(t)
    ensures AgreeExcept(Step(s, e), Step(t, e), c)
  {
    match e
    case NewUdp => AgreeNew(s, t, c);
    case Close(x) => AgreeClose(s, t, c, x);
    case Inbound(m) => AgreeInbound(s, t, c, m);
    case TransportError =>
    case Recv(x) => AgreeRecv(s, t, c, x);
  }

  lemma {:induction false} TableRun(s: Manager, es: seq<Event>)
    requires TableOk(s)
    ensures TableOk(Run(s, es))
    ensures s.closed ==> Run(s, es).closed
    decreases |es|
  {
    if es != [] {
      TableRun(s, es[..|es| - 1]);
      TableStep(Run(s, es[..|es| - 1]), es[|es| - 1]);
    }
  }

  /** Once two managers differ in one session only, no run makes them differ in another. */
  lemma {:induction false} AgreeRun(s: Manager, t: Manager, c: nat, es: seq<Event>)
    requires AgreeExcept(s, t, c) && TableOk(s) && TableOk(t)
    ensures AgreeExcept(Run(s, es), Run(t, es), c)
    decreases |es|
  {
    if es != [] {
      var before, e := es[..|es| - 1], es[|es| - 1];
      TableRun(s, before);
      TableRun(t, before);
      AgreeRun(s, t, c, before);
      AgreeStep(Run(s, before), Run(t, before), c, e);
    }
  }

  /** The session's id, if it is in the table at all, is still the session's own. */
  predicate OwnsId(s: Manager, c: nat)
    requires c < |s.conns|
  {
    s.conns[c].id in s.table ==> s.table[s.conns[c].id] == c
  }

  lemma {:induction false} CloseDiffersAtOne(s: Manager, c: nat)
    requires TableOk(s) && c < |s.conns|
    ensures AgreeExcept(s, Step(s, Close(c)), c) <==> OwnsId(s, c)
  {
    var t := Step(s, Close(c));
    forall i | 0 <= i < |s.conns|
      ensures t.Live(i) == (s.Live(i) && s.conns[i].id != s.conns[c].id)
    {
    }
    if !OwnsId(s, c) {
      var i := s.table[s.conns[c].id];
      assert s.Live(i) && !t.Live(i);
    }
  }

  /** With and without closing session c now, every run that follows gives every other session the same. */
  ghost predicate Isolated(s: Manager, c: nat) {
    forall more: seq<Event> :: AgreeExcept(Run(s, more), Run(Step(s, Close(c)), more), c)
  }

  lemma {:induction false} OwnedIsIsolated(s: Manager, c: nat)
    requires TableOk(s) && c < |s.conns| && OwnsId(s, c)
    ensures Isolated(s, c)
  {
    var t := Step(s, Close(c));
    TableStep(s, Close(c));
    CloseDiffersAtOne(s, c);
    forall more: seq<Event>
      ensures AgreeExcept(Run(s, more), Run(t, more), c)
    {
      AgreeRun(s, t, c, more);
    }
  }

  lemma {:induction false} IsolatedIsOwned(s: Manager, c: nat)
    requires TableOk(s) && c < |s.conns| && Isolated(s, c)
    ensures OwnsId(s, c)
  {
    var none: seq<Event> := [];
    assert AgreeExcept(Run(s, none), Run(Step(s, Close(c)), none), c);
    CloseDiffersAtOne(s, c);
  }

  /**
    Closing a session affects no other, in any run that follows, exactly when the session's id has
    not been taken over by a later session: with and without the close, every other session ends
    the same run with the same messages taken, queued and returned, and is live in both or neither.
   */
  lemma {:induction false} CloseIsIsolatedIff(es: seq<Event>, c: nat)
    requires c < |Run(INITIAL, es).conns|
    ensures Isolated(Run(INITIAL, es), c) <==> OwnsId(Run(INITIAL, es), c)
  {
    var s := Run(INITIAL, es);
    EveryRun(es);
    if OwnsId(s, c) {
      OwnedIsIsolated(s, c);
    } else if Isolated(s, c) {
      IsolatedIsOwned(s, c);
    }
  }

  /** Up to 2^32 sessions no id is ever taken over, so every close is isolated from every run after it. */
  lemma {:induction false} CloseIsIsolated(es: seq<Event>, c: nat, more: seq<Event>)
    requires c < |Run(INITIAL, es).conns| <= ID_SPACE
    ensures AgreeExcept(Run(Run(INITIAL, es), more), Run(Step(Run(INITIAL, es), Close(c)), more), c)
  {
    var s := Run(INITIAL, es);
    EveryRun(es);
    DistinctWithinIdSpace(s);
    OwnedIsIsolated(s, c);
  }

  /** n sessions created in a row. */
  function News(n: nat): (es: seq<Event>)
    ensures |es| == n
  {
    if n == 0 then [] else News(n - 1) + [NewUdp]
  }

  lemma {:induction false} AfterNews(n: nat)
    ensures var s := Run(INITIAL, News(n));
            && TableOk(s) && !s.closed && |s.conns| == n && (n > 0 ==> s.Live(n - 1))
  {
    if n > 0 {
      AfterNews(n - 1);
      assert News(n)[..n - 1] == News(n - 1);
      TableStep(Run(INITIAL, News(n - 1)), NewUdp);
    }
  }

  /** The first run that breaks it: after 2^32 + 1 sessions, closing the first cuts off the last. */
  lemma {:induction false} CloseAfterWrap()
    ensures var s := Run(INITIAL, News(ID_SPACE + 1));
            && |s.conns| == ID_SPACE + 1 && !OwnsId(s, 0)
            && s.Live(ID_SPACE) && !Step(s, Close(0)).Live(ID_SPACE)
  {
    AfterNews(ID_SPACE + 1);
    CutOff(Run(INITIAL, News(ID_SPACE + 1)));
  }

  lemma {:induction false} CutOff(s: Manager)
    requires TableOk(s) && |s.conns| == ID_SPACE + 1 && s.Live(ID_SPACE)
    ensures !OwnsId(s, 0) && !Step(s, Close(0)).Live(ID_SPACE)
  {
    IdAtRepeats(0, ID_SPACE);
    assert s.conns[0].id == s.conns[ID_SPACE].id;
  }

  // ----- shutdown -----

  function Recvs(es: seq<Event>, c: nat): nat {
    if es == [] then 0
    else Recvs(es[..|es| - 1], c) + (if es[|es| - 1] == Recv(c) then 1 else 0)
  }

  /** What a reader sees when it looks at its queue. */
  datatype Poll = Message | Pending | Eof

  function PollOf(s: Manager, c: nat): Poll
    requires c < |s.conns|
  {
    if s.conns[c].queue != [] then Message else if s.Live(c) then Pending else Eof
  }

  /**
    Once the transport has failed, whatever happens next: no session is created, every session
    keeps exactly the messages it had, drains them one per read, and then sees end of file.
   */
  lemma {:induction false} ClosedDrains(s: Manager, es: seq<Event>, c: nat)
    requires TableOk(s) && s.closed && c < |s.conns|
    ensures var t := Run(s, es);
            && t.closed && t.table == map[] && |t.conns| == |s.conns|
            && t.conns[c].taken + t.conns[c].queue == s.conns[c].taken + s.conns[c].queue
            && |t.conns[c].queue| ==
                 (if Recvs(es, c) < |s.conns[c].queue| then |s.conns[c].queue| - Recvs(es, c) else 0)
            && PollOf(t, c) == if Recvs(es, c) < |s.conns[c].queue| then Message else Eof
    decreases |es|
  {
    if es != [] {
      var before, e := es[..|es| - 1], es[|es| - 1];
      ClosedDrains(s, before, c);
      var t := Run(s, before);
      if e == Recv(c) && t.conns[c].queue != [] {
        var q := t.conns[c].queue;
        assert t.conns[c].taken + [q[0]] + q[1..] == t.conns[c].taken + q;
      }
    }
  }

  /**
    The transport's failure, whatever happened before and happens after it: the manager is closed with
    an empty table and no session is created any more; every session hands out the messages it had,
    one per read, and then sees end of file.
   */
  lemma {:induction false} TransportErrorCloses(es: seq<Event>, more: seq<Event>, c: nat)
    requires c < |Run(INITIAL, es).conns|
    ensures var s := Run(INITIAL, es);
            var t := Run(Step(s, TransportError), more);
            && t.closed && t.table == map[] && |t.conns| == |s.conns|
            && t.conns[c].taken + t.conns[c].queue == s.conns[c].taken + s.conns[c].queue
            && PollOf(t, c) == if Recvs(more, c) < |s.conns[c].queue| then Message else Eof
  {
    var s := Run(INITIAL, es);
    EveryRun(es);
    TableStep(s, TransportError);
    ClosedDrains(Step(s, TransportError), more, c);
  }

  // ----- the running manager -----

  /** n reads in a row by one session. */
  function Reads(c: nat, n: nat): (es: seq<Event>)
    ensures |es| == n
  {
    if n == 0 then [] else Reads(c, n - 1) + [Recv(c)]
  }

  lemma {:induction false} ReadsNext(s: Manager, c: nat, n: nat)
    ensures Run(s, Reads(c, n + 1)) == Step(Run(s, Reads(c, n)), Recv(c))
  {
    assert Reads(c, n + 1)[..n] == Reads(c, n);
  }

  /** A read moves the oldest message from the session's queue to its reader, and nothing else. */
  lemma {:induction false} ReadConserves(s: Manager, c: nat)
    requires c < |s.conns|
    ensures var t := Step(s, Recv(c));
            && t == s.(conns := t.conns) && |t.conns| == |s.conns|
            && (forall i :: 0 <= i < |s.conns| && i != c ==> t.conns[i] == s.conns[i])
            && t.conns[c].id == s.conns[c].id
            && t.conns[c].taken + t.conns[c].queue == s.conns[c].taken + s.conns[c].queue
  {
    var q := s.conns[c].queue;
    if q != [] {
      assert s.conns[c].taken + [q[0]] + q[1..] == s.conns[c].taken + q;
    }
  }

  /** Reads only move messages from the session's queue to its reader. */
  lemma {:induction false} ReadsConserve(s: Manager, c: nat, n: nat)
    requires c < |s.conns|
    ensures var t := Run(s, Reads(c, n));
            && t == s.(conns := t.conns) && |t.conns| == |s.conns|
            && (forall i :: 0 <= i < |s.conns| && i != c ==> t.conns[i] == s.conns[i])
            && t.conns[c].id == s.conns[c].id
            && t.conns[c].taken + t.conns[c].queue == s.conns[c].taken + s.conns[c].queue
  {
    if n > 0 {
      ReadsConserve(s, c, n - 1);
      ReadsNext(s, c, n - 1);
      ReadConserves(Run(s, Reads(c, n - 1)), c);
    }
  }

  datatype Received = Datagram(data: seq<byte>, addr: seq<byte>) | WouldBlock | EndOfFile

  class UdpSessionManager {
    var table: map<u32, nat>
    var nextId: u32
    var closed: bool
    var conns: seq<Conn>

    function View(): Manager
      reads this
    {
      Manager(table, nextId, closed, conns)
    }

    constructor ()
      ensures View() == INITIAL
    {
      table, nextId, closed, conns := map[], 1, false, [];
    }

    /** `new_udp`: refused once closed. */
    method New() returns (c: Option<nat>)
      modifies this
      ensures View() == Step(old(View()), NewUdp)
      ensures c == if old(closed) then None else Some(old(|conns|))
      ensures c.Some? ==> View().Live(c.value)
    {
      if closed {
        return None;
      }
      var id := nextId;
      nextId := (nextId + 1) % ID_SPACE;
      table := table[id := |conns|];
      conns := conns + [Conn(id, [], [], Defrag.INITIAL, [])];
      return Some(|conns| - 1);
    }

    /** `close`, also run when the owner drops the session; closing twice changes nothing more. */
    method CloseConn(c: nat)
      requires c < |conns|
      modifies this
      ensures View() == Step(old(View()), Close(c)) && !View().Live(c)
      ensures Step(View(), Close(c)) == View()
    {
      table := table - {conns[c].id};
    }

    /** `feed`: route one inbound message, dropping it when nobody wants it or the queue is full. */
    method Deliver(m: UdpMessage)
      requires TableOk(View())
      modifies this
      ensures View() == Step(old(View()), Inbound(m))
    {
      if m.sessionId in table {
        var c := table[m.sessionId];
        if |conns[c].queue| < UDP_MESSAGE_CHAN_SIZE {
          conns := conns[c := conns[c].(queue := conns[c].queue + [m])];
        }
      }
    }

    /** `run`: pump the messages the transport yields, then tear everything down. */
    method Pump(inbound: seq<UdpMessage>)
      requires TableOk(View())
      modifies this
      ensures View() == Step(Run(old(View()), seq(|inbound|, i requires 0 <= i < |inbound| => Inbound(inbound[i]))),
                             TransportError)
      ensures TableOk(View()) && closed && table == map[] && |conns| == |old(conns)|
    {
      ghost var es := seq(|inbound|, i requires 0 <= i < |inbound| => Inbound(inbound[i]));
      for i := 0 to |inbound|
        invariant View() == Run(old(View()), es[..i])
        invariant TableOk(View()) && |conns| == |old(conns)|
      {
        TableStep(View(), Inbound(inbound[i]));
        Deliver(inbound[i]);
        assert es[..i + 1][..i] == es[..i];
      }
      assert es[..|inbound|] == es;
      table := map[];
      closed := true;
    }

    /** One round of the receive loop. */
    method RecvOne(c: nat) returns (m: Option<UdpMessage>)
      requires c < |conns| && conns[c].queue != []
      modifies this`conns
      ensures View() == Step(old(View()), Recv(c)) && c < |conns|
      ensures |conns[c].queue| == |old(conns[c].queue)| - 1
      ensures conns[c].out == old(conns[c].out) + if m.Some? then [m.value] else []
    {
      var fed := Defrag.Step(conns[c].defrag, conns[c].queue[0]);
      conns := conns[c := conns[c].Recv()];
      return fed.out;
    }

    /** `receive`: take messages until one completes a datagram, the queue is empty, or the sender is gone. */
    method Receive(c: nat) returns (r: Received, ghost n: nat)
      requires c < |conns|
      modifies this`conns
      ensures View() == Run(old(View()), Reads(c, n)) && c < |conns|
      ensures match r
              case Datagram(data, addr) =>
                exists m :: conns[c].out == old(conns[c].out) + [m] && m.data == data && m.addr == addr
              case WouldBlock => conns[c].out == old(conns[c].out) && PollOf(View(), c) == Pending
              case EndOfFile => conns[c].out == old(conns[c].out) && PollOf(View(), c) == Eof
    {
      n := 0;
      while conns[c].queue != []
        invariant c < |conns| && View() == Run(old(View()), Reads(c, n))
        invariant conns[c].out == old(conns[c].out)
        decreases |conns[c].queue|
      {
        ReadsNext(old(View()), c, n);
        var m := RecvOne(c);
        n := n + 1;
        if m.Some? {
          return Datagram(m.value.data, m.value.addr), n;
        }
      }
      r := if conns[c].id in table && table[conns[c].id] == c then WouldBlock else EndOfFile;
    }
  }
}
