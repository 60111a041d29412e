/** The sending half of a UDP session: try whole, fragment when the path says the datagram is too large. */
module UdpSend {
  import opened Bytes
  import opened ProtocolLimits
  import opened UdpCodec
  import opened Frag
  import UdpRelay
  import Defrag
  import Utf8

  datatype SendResult = Sent | TooLarge(maxPayloadSize: nat) | Failed

  /** One datagram handed to the path, the path's limit at that moment, and what came of it. */
  datatype Attempt = Attempt(datagram: seq<byte>, limit: nat, result: SendResult)
  {
    /** Too large for the limit is exactly what is refused as too large, and the limit is reported. */
    predicate Honest() {
      if |datagram| > limit then result == TooLarge(limit) else !result.TooLarge?
    }
  }

  /** What of it went out, in order. */
  function SentOf(tries: seq<Attempt>): seq<seq<byte>> {
    if tries == [] then []
    else
      var before, last := SentOf(tries[..|tries| - 1]), tries[|tries| - 1];
      if last.result.Sent? then before + [last.datagram] else before
  }

  predicate AllHonest(tries: seq<Attempt>) {
    forall i :: 0 <= i < |tries| ==> tries[i].Honest()
  }

  /**
    The QUIC connection's datagram side. Any send may fail for reasons of its own, and the path's
    limit may be another one after each send.
   */
  class DatagramPath {
    var maxSize: nat
    var sent: seq<seq<byte>>
    /** Everything handed to the path so far. */
    ghost var attempts: seq<Attempt>

    constructor (maxSize: nat)
      ensures this.maxSize == maxSize && sent == [] && attempts == []
    {
      this.maxSize := maxSize;
      sent, attempts := [], [];
    }

    method SendDatagram(d: seq<byte>) returns (r: SendResult)
      modifies this
      ensures attempts == old(attempts) + [Attempt(d, old(maxSize), r)] && Attempt(d, old(maxSize), r).Honest()
      ensures sent == if r.Sent? then old(sent) + [d] else old(sent)
    {
      r := Failed;
      if |d| > maxSize {
        r := TooLarge(maxSize);
      } else {
        var working: bool := *;
        if working {
          sent := sent + [d];
          r := Sent;
        }
      }
      attempts := attempts + [Attempt(d, maxSize, r)];
      var limit: int := *;
      if limit >= 0 {
        maxSize := limit;
      }
    }
  }

  /** `send_message`: a message larger than the scratch buffer is dropped without an error. */
  method SendMessage(path: DatagramPath, buf: array<byte>, m: UdpMessage)
    returns (r: SendResult, ghost tries: seq<Attempt>)
    requires m.Typed()
    modifies path, buf
    ensures if m.Size() > buf.Length then r == Sent && tries == []
            else tries == [Attempt(Encode(m), old(path.maxSize), r)] && tries[0].Honest()
    ensures path.attempts == old(path.attempts) + tries
    ensures path.sent == old(path.sent) + SentOf(tries)
  {
    var n := Serialize(m, buf);
    tries := [];
    if n.None? {
      return Sent, tries;
    }
    tries := [Attempt(buf[..n.value], path.maxSize, Sent)];
    r := path.SendDatagram(buf[..n.value]);
    tries := [tries[0].(result := r)];
    assert tries[..0] == [];
  }

  /** What `send` is meant to put on a path of this size. */
  function Intended(m: UdpMessage, packetId: u16, maxSize: nat): seq<seq<byte>>
    requires m.Typed()
  {
    if m.Size() > MAX_UDP_SIZE then []
    else if m.Size() <= maxSize then [Encode(m)]
    else UdpRelay.Datagrams(m.(packetId := packetId), maxSize)
  }

  /** The datagrams were tried in order up to the first that was not sent, and that one's result is the result. */
  predicate UntilFailure(tries: seq<Attempt>, wire: seq<seq<byte>>, r: SendResult) {
    && |tries| <= |wire|
    && (forall i :: 0 <= i < |tries| ==> tries[i].datagram == wire[i])
    && (forall i :: 0 <= i < |tries| - 1 ==> tries[i].result.Sent?)
    && if tries != [] && !tries[|tries| - 1].result.Sent? then r == tries[|tries| - 1].result
       else r == Sent && |tries| == |wire|
  }

  /** What `send` tries on a path with this limit, and what it answers. */
  predicate SendOutcome(m: UdpMessage, packetId: u16, limit: nat, tries: seq<Attempt>, r: SendResult)
    requires m.Typed()
  {
    if m.Size() > MAX_UDP_SIZE then tries == [] && r == Sent
    else
      && tries != []
      && if m.Size() <= limit then tries == [Attempt(Encode(m), limit, r)]
         else
           && tries[0] == Attempt(Encode(m), limit, TooLarge(limit))
           && UntilFailure(tries[1..], UdpRelay.Datagrams(m.(packetId := packetId), limit), r)
  }

  /** A session's sending state: its id and its scratch buffer. */
  class UdpConn {
    const id: u32
    const sendBuf: array<byte>
    const path: DatagramPath

    constructor (id: u32, path: DatagramPath)
      ensures this.id == id && this.path == path && sendBuf.Length == MAX_UDP_SIZE && fresh(sendBuf)
    {
      this.id := id;
      this.path := path;
      sendBuf := new byte[MAX_UDP_SIZE];
    }

    function Message(data: seq<byte>, addr: seq<byte>): UdpMessage {
      UdpMessage(id, 0, 0, 1, addr, data)
    }

    /**
      `send`: everything intended for the path as it was found is sent, in order, or a failure is
      reported and what went out is a prefix of it. Every answer is the path's own: an error is what
      the path said to the last datagram tried, and a datagram is reported as too large only when
      the path shrank on the way. The random packet id is the caller's choice here.
     */
    method Send(data: seq<byte>, addr: seq<byte>, packetId: u16) returns (r: SendResult, ghost tries: seq<Attempt>)
      requires UdpMessage(id, 0, 0, 1, addr, data).Typed() && sendBuf.Length == MAX_UDP_SIZE
      modifies path, sendBuf
      ensures path.attempts == old(path.attempts) + tries && AllHonest(tries)
      ensures SendOutcome(Message(data, addr), packetId, old(path.maxSize), tries, r)
      ensures path.sent == old(path.sent) + SentOf(tries)
      ensures SentOf(tries) <= Intended(Message(data, addr), packetId, old(path.maxSize))
      ensures r.Sent? ==> SentOf(tries) == Intended(Message(data, addr), packetId, old(path.maxSize))
      ensures r.TooLarge? ==> r.maxPayloadSize < old(path.maxSize)
      ensures var w := UdpMessage(id, 0, 0, 1, addr, data);
              r.Sent? && w.Parseable() && w.Size() <= MAX_UDP_SIZE ==>
                && (w.Size() <= old(path.maxSize) ==> |SentOf(tries)| == 1 && Parse(SentOf(tries)[0]) == Ok(w))
                && (w.HeaderSize() < old(path.maxSize) < w.Size() ==>
                      CarriedBy(SentOf(tries), id, packetId, addr, data))
    {
      var m := Message(data, addr);
      ghost var limit := path.maxSize;
      r, tries := SendMessage(path, sendBuf, m);
      if r.TooLarge? {
        ghost var first, more := tries, [];
        r, more := SendFragments(m.(packetId := packetId), r.maxPayloadSize);
        Associate(old(path.attempts), first, more);
        SentConcat(first, more);
        Associate(old(path.sent), SentOf(first), SentOf(more));
        CutOutcome(m, packetId, limit, more, r);
        tries := first + more;
      }
      OutcomeMeans(m, packetId, limit, tries, r);
      if m.Parseable() {
        RoundTrip(m);
        if m.HeaderSize() < limit < m.Size() {
          WireOfMessage(m, packetId, limit);
        }
      }
    }

    /** The fragmenting half of `send`: every fragment in turn, until one fails. */
    method SendFragments(m: UdpMessage, maxSize: nat) returns (r: SendResult, ghost tries: seq<Attempt>)
      requires m.Typed() && sendBuf.Length == MAX_UDP_SIZE
      requires maxSize < m.Size() <= MAX_UDP_SIZE
      modifies path, sendBuf
      ensures path.attempts == old(path.attempts) + tries && AllHonest(tries)
      ensures path.sent == old(path.sent) + SentOf(tries)
      ensures UntilFailure(tries, UdpRelay.Datagrams(m, maxSize), r)
    {
      var frags := FragUdpMessage(m, maxSize);
      ghost var wire := UdpRelay.Datagrams(m, maxSize);
      UdpRelay.FragmentsTyped(m, maxSize);
      FragmentsFit(m, maxSize);
      tries := [];
      assert path.attempts == path.attempts + [] && path.sent == path.sent + [];
      for i := 0 to |frags|
        invariant path.attempts == old(path.attempts) + tries && path.sent == old(path.sent) + SentOf(tries)
        invariant |tries| == i && AllHonest(tries) && AllSent(tries, wire)
      {
        ghost var next;
        r, next := SendMessage(path, sendBuf, frags[i]);
        Associate(old(path.attempts), tries, next);
        SentConcat(tries, next);
        Associate(old(path.sent), SentOf(tries), SentOf(next));
        NextTry(tries, next[0], wire);
        tries := tries + next;
        if !r.Sent? {
          return;
        }
      }
      r := Sent;
    }
  }

  /** The messages that datagrams parse to. */
  function Parsed(wire: seq<seq<byte>>): (ms: seq<UdpMessage>)
    requires forall i :: 0 <= i < |wire| ==> Parse(wire[i]).Ok?
    ensures |ms| == |wire| && forall i :: 0 <= i < |wire| ==> ms[i] == Parse(wire[i]).msg
  {
    seq(|wire|, i requires 0 <= i < |wire| => Parse(wire[i]).msg)
  }

  /**
    Each datagram parses to a part of one message of this session, under one packet id and to one
    address; the parts make up the payload, numbered in order as long as a byte can number them.
   */
  predicate CarriedBy(wire: seq<seq<byte>>, id: u32, packetId: u16, addr: seq<byte>, data: seq<byte>) {
    && (forall i :: 0 <= i < |wire| ==> Parse(wire[i]).Ok?)
    && (forall i :: 0 <= i < |wire| ==>
          var f := Parse(wire[i]).msg;
          f.sessionId == id && f.packetId == packetId && f.addr == addr)
    && Concat(Payloads(Parsed(wire))) == data
    && (|wire| <= 255 ==> Numbered(Parsed(wire)))
  }

  lemma {:induction false} WireOfMessage(m: UdpMessage, packetId: u16, limit: nat)
    requires m.Typed() && m.Parseable() && m.HeaderSize() < limit < m.Size()
    ensures CarriedBy(UdpRelay.Datagrams(m.(packetId := packetId), limit), m.sessionId, packetId, m.addr, m.data)
  {
    var p := m.(packetId := packetId);
    assert m.Size() == p.Size() by { assert m.HeaderSize() == p.HeaderSize(); }
    var frags := Fragments(p, limit);
    WireParses(p, limit);
    LosslessAndFitting(p, limit);
    PieceCountBound(p, limit);
    NumberedIff(p, limit);
    FragmentsKeepHeader(m, packetId, limit);
  }

  lemma {:induction false} FragmentsKeepHeader(m: UdpMessage, packetId: u16, limit: nat)
    requires m.HeaderSize() < limit < m.Size()
    ensures forall f :: f in Fragments(m.(packetId := packetId), limit) ==>
              f.sessionId == m.sessionId && f.packetId == packetId && f.addr == m.addr
  {
    var p := m.(packetId := packetId);
    assert p.HeaderSize() == m.HeaderSize();
    LosslessAndFitting(p, limit);
  }

  lemma {:induction false} WireParses(p: UdpMessage, limit: nat)
    requires p.Typed() && p.Parseable() && p.HeaderSize() < limit < p.Size()
    ensures var wire := UdpRelay.Datagrams(p, limit);
            (forall i :: 0 <= i < |wire| ==> Parse(wire[i]).Ok?) && Parsed(wire) == Fragments(p, limit)
  {
    var frags, wire := Fragments(p, limit), UdpRelay.Datagrams(p, limit);
    UdpRelay.FragmentsTyped(p, limit);
    forall i | 0 <= i < |wire|
      ensures Parse(wire[i]) == Ok(frags[i])
    {
      FragmentParses(p, limit, i);
    }
  }

  lemma {:induction false} FragmentParses(p: UdpMessage, limit: nat, i: nat)
    requires p.Typed() && p.Parseable() && p.HeaderSize() < limit < p.Size() && i < |Fragments(p, limit)|
    ensures Fragments(p, limit)[i].Typed() && Parse(Encode(Fragments(p, limit)[i])) == Ok(Fragments(p, limit)[i])
  {
    PiecesConcat(p.data, limit - p.HeaderSize());
    RoundTrip(Fragments(p, limit)[i]);
  }

  lemma {:induction false} SentConcat(a: seq<Attempt>, b: seq<Attempt>)
    ensures SentOf(a + b) == SentOf(a) + SentOf(b)
    decreases |b|
  {
    if b == [] {
      assert a + b == a;
    } else {
      SentConcat(a, b[..|b| - 1]);
      assert (a + b)[..|a + b| - 1] == a + b[..|b| - 1];
    }
  }

  /** These attempts sent the first datagrams of the wire. */
  predicate AllSent(tries: seq<Attempt>, wire: seq<seq<byte>>) {
    |tries| <= |wire| && forall i :: 0 <= i < |tries| ==> tries[i].datagram == wire[i] && tries[i].result.Sent?
  }

  lemma {:induction false} NextTry(tries: seq<Attempt>, next: Attempt, wire: seq<seq<byte>>)
    requires AllHonest(tries) && AllSent(tries, wire)
    requires |tries| < |wire| && next.datagram == wire[|tries|] && next.Honest()
    ensures AllHonest(tries + [next])
    ensures if next.result.Sent? then AllSent(tries + [next], wire)
            else UntilFailure(tries + [next], wire, next.result)
  {
  }

  lemma {:induction false} SentPrefix(tries: seq<Attempt>, wire: seq<seq<byte>>)
    requires AllSent(tries, wire)
    ensures SentOf(tries) == wire[..|tries|]
    decreases |tries|
  {
    if tries != [] {
      SentPrefix(tries[..|tries| - 1], wire);
      assert wire[..|tries|] == wire[..|tries| - 1] + [wire[|tries| - 1]];
    }
  }

  /** Trying until a failure sends a prefix, and everything when there was none. */
  lemma {:induction false} UntilFailureSends(tries: seq<Attempt>, wire: seq<seq<byte>>, r: SendResult)
    requires UntilFailure(tries, wire, r)
    ensures SentOf(tries) <= wire && (r.Sent? ==> SentOf(tries) == wire)
  {
    if tries != [] && !tries[|tries| - 1].result.Sent? {
      SentPrefix(tries[..|tries| - 1], wire);
    } else {
      SentPrefix(tries, wire);
      assert wire[..|tries|] == wire;
    }
  }

  lemma {:induction false} CutOutcome(m: UdpMessage, packetId: u16, limit: nat, more: seq<Attempt>, r: SendResult)
    requires m.Typed() && limit < m.Size() <= MAX_UDP_SIZE && AllHonest(more)
    requires UntilFailure(more, UdpRelay.Datagrams(m.(packetId := packetId), limit), r)
    ensures var tries := [Attempt(Encode(m), limit, TooLarge(limit))] + more;
            SendOutcome(m, packetId, limit, tries, r) && AllHonest(tries)
  {
    var tries := [Attempt(Encode(m), limit, TooLarge(limit))] + more;
    assert tries[1..] == more;
  }

  /** What the attempts amount to on the wire. */
  lemma {:induction false} OutcomeMeans(
      m: UdpMessage, packetId: u16, limit: nat, tries: seq<Attempt>, r: SendResult)
    requires m.Typed() && SendOutcome(m, packetId, limit, tries, r) && AllHonest(tries)
    ensures SentOf(tries) <= Intended(m, packetId, limit)
    ensures r.Sent? ==> SentOf(tries) == Intended(m, packetId, limit)
    ensures r.TooLarge? ==> r.maxPayloadSize < limit
  {
    if m.Size() <= MAX_UDP_SIZE {
      if m.Size() <= limit {
        SentOfOne(tries[0]);
      } else {
        CutOutcomeMeans(m, packetId, limit, tries, r);
      }
    }
  }

  lemma {:induction false} SentOfOne(a: Attempt)
    ensures SentOf([a]) == if a.result.Sent? then [a.datagram] else []
  {
    assert [a][..0] == [];
  }

  lemma {:induction false} CutOutcomeMeans(
      m: UdpMessage, packetId: u16, limit: nat, tries: seq<Attempt>, r: SendResult)
    requires m.Typed() && limit < m.Size() && AllHonest(tries) && tries != [] && !tries[0].result.Sent?
    requires UntilFailure(tries[1..], UdpRelay.Datagrams(m.(packetId := packetId), limit), r)
    ensures var wire := UdpRelay.Datagrams(m.(packetId := packetId), limit);
            SentOf(tries) <= wire && (r.Sent? ==> SentOf(tries) == wire)
    ensures r.TooLarge? ==> r.maxPayloadSize < limit
  {
    var wire := UdpRelay.Datagrams(m.(packetId := packetId), limit);
    UntilFailureSends(tries[1..], wire, r);
    SentAfterFirst(tries);
    WireFits(m, packetId, limit);
  }

  lemma {:induction false} SentAfterFirst(tries: seq<Attempt>)
    requires tries != [] && !tries[0].result.Sent?
    ensures SentOf(tries) == SentOf(tries[1..])
  {
    SentConcat([tries[0]], tries[1..]);
    SentOfOne(tries[0]);
    assert [tries[0]] + tries[1..] == tries;
  }

  lemma {:induction false} WireFits(m: UdpMessage, packetId: u16, limit: nat)
    requires m.Typed() && limit < m.Size()
    ensures forall d :: d in UdpRelay.Datagrams(m.(packetId := packetId), limit) ==> |d| <= limit
  {
    var p := m.(packetId := packetId);
    assert m.Size() == p.Size() by { assert m.HeaderSize() == p.HeaderSize(); }
    UdpRelay.FragmentsTyped(p, limit);
    FragmentsFit(p, limit);
  }

  lemma {:induction false} FragmentsFit(m: UdpMessage, maxSize: nat)
    requires maxSize < m.Size()
    ensures forall i :: 0 <= i < |Fragments(m, maxSize)| ==> Fragments(m, maxSize)[i].Size() <= maxSize
  {
    if m.HeaderSize() < maxSize {
      LosslessAndFitting(m, maxSize);
    }
  }

  /** When a payload sent on this path reaches a peer that gets every datagram. */
  predicate Deliverable(m: UdpMessage, maxSize: nat) {
    && m.Parseable() && m.Size() <= MAX_UDP_SIZE
    && m.HeaderSize() < maxSize
    && |m.data| <= 255 * (maxSize - m.HeaderSize())
  }

  /** The peer's defragger is not on a packet that could be mistaken for this one. */
  predicate Clear(d: Defrag.State, m: UdpMessage, packetId: u16, maxSize: nat) {
    maxSize < m.Size() ==> d.pktId != packetId || |d.slots| != |Fragments(m, maxSize)| % 256
  }

  /** An arrival of one of the message's own datagrams hands payload and address to the reader. */
  predicate Delivers(m: UdpMessage, packetId: u16, maxSize: nat, d: Defrag.State, arrivals: seq<seq<byte>>)
    requires m.Typed()
  {
    exists k :: 0 <= k < |arrivals| && arrivals[k] in Intended(m, packetId, maxSize)
      && Carries(UdpRelay.Output(d, arrivals, k), m)
  }

  predicate Carries(out: Option<UdpMessage>, m: UdpMessage) {
    out.Some? && out.value.data == m.data && out.value.addr == m.addr && out.value.sessionId == m.sessionId
  }

  /** A payload that fits one datagram is returned by every arrival of it, in any state, and leaves no trace. */
  lemma {:induction false} WholeDatagram(
      m: UdpMessage, packetId: u16, maxSize: nat, d: Defrag.State, arrivals: seq<seq<byte>>, k: nat)
    requires m.Typed() && Deliverable(m, maxSize) && m.Size() <= maxSize && m.fragCount == 1
    requires k < |arrivals| && arrivals[k] in Intended(m, packetId, maxSize)
    ensures UdpRelay.Output(d, arrivals, k) == Some(m) && UdpRelay.Noise(arrivals[k])
  {
    RoundTrip(m);
  }

  /**
    From `send` to `receive`: any arrival of everything that was intended, in any order, duplicated
    and mixed with noise, hands the original payload and address to the reader exactly once.
   */
  lemma {:induction false} SendThenReceive(
      m: UdpMessage, packetId: u16, maxSize: nat, d: Defrag.State, arrivals: seq<seq<byte>>)
    returns (k: nat)
    requires m.Typed() && Deliverable(m, maxSize) && maxSize < m.Size() && Clear(d, m, packetId, maxSize)
    requires UdpRelay.Traffic(Intended(m, packetId, maxSize), arrivals)
    requires UdpRelay.AllArrived(Intended(m, packetId, maxSize), arrivals)
    ensures k < |arrivals| && !UdpRelay.Noise(arrivals[k])
    ensures !UdpRelay.AllArrived(Intended(m, packetId, maxSize), arrivals[..k])
    ensures UdpRelay.AllArrived(Intended(m, packetId, maxSize), arrivals[..k + 1])
    ensures Carries(UdpRelay.Output(d, arrivals, k), m)
    ensures forall j :: 0 <= j < |arrivals| && j != k && !UdpRelay.Noise(arrivals[j]) ==>
              UdpRelay.Output(d, arrivals, j) == None
  {
    SplitsWhenDeliverable(m, packetId, maxSize, d);
    k := UdpRelay.DeliveredExactlyOnce(m.(packetId := packetId), maxSize, d, arrivals);
  }

  lemma {:induction false} SplitsWhenDeliverable(m: UdpMessage, packetId: u16, maxSize: nat, d: Defrag.State)
    requires Deliverable(m, maxSize) && maxSize < m.Size() && Clear(d, m, packetId, maxSize)
    ensures UdpRelay.Splits(m.(packetId := packetId), maxSize)
    ensures d.pktId != packetId || |d.slots| != |Fragments(m.(packetId := packetId), maxSize)|
  {
    var p := m.(packetId := packetId);
    assert m.HeaderSize() == p.HeaderSize() && m.Size() == p.Size();
    PieceCountBound(m, maxSize);
  }

  lemma {:induction false} PieceCountBound(m: UdpMessage, maxSize: nat)
    requires m.HeaderSize() < maxSize < m.Size()
    ensures |Fragments(m, maxSize)| <= 255 <==> |m.data| <= 255 * (maxSize - m.HeaderSize())
  {
    PieceCount(m.data, maxSize - m.HeaderSize());
    CeilBound(|m.data|, maxSize - m.HeaderSize(), 255);
  }

  // ----- what cannot be delivered -----

  /** What every fragment of the message has in common on the wire. */
  predicate Piece(f: UdpMessage, m: UdpMessage, packetId: u16, maxSize: nat) {
    && |f.data| <= maxSize - m.HeaderSize()
    && f.packetId == packetId && f.fragCount == |Fragments(m, maxSize)| % 256
  }

  /** Each datagram of a message that has to be cut carries at most one piece, and its packet id. */
  lemma {:induction false} PieceOfMessage(m: UdpMessage, packetId: u16, maxSize: nat, datagram: seq<byte>)
    requires m.Typed() && maxSize < m.Size() && datagram in Intended(m, packetId, maxSize)
    requires UdpCodec.Parse(datagram).Ok?
    ensures var f := UdpCodec.Parse(datagram).msg;
            m.HeaderSize() < maxSize && f.Parseable() && f.addr == m.addr && Piece(f, m, packetId, maxSize)
  {
    var p := m.(packetId := packetId);
    var frags := Fragments(p, maxSize);
    assert m.Size() == p.Size() by { assert m.HeaderSize() == p.HeaderSize(); }
    UdpRelay.FragmentsTyped(p, maxSize);
    var i :| 0 <= i < |frags| && datagram == Encode(frags[i]);
    RoundTrip(frags[i]);
    FragmentIsPiece(m, packetId, maxSize, i);
  }

  lemma {:induction false} FragmentIsPiece(m: UdpMessage, packetId: u16, maxSize: nat, i: nat)
    requires maxSize < m.Size() && i < |Fragments(m.(packetId := packetId), maxSize)|
    ensures var f := Fragments(m.(packetId := packetId), maxSize)[i];
            m.HeaderSize() < maxSize && f.addr == m.addr && Piece(f, m, packetId, maxSize)
  {
    var p := m.(packetId := packetId);
    assert m.Size() == p.Size() by { assert m.HeaderSize() == p.HeaderSize(); }
    PiecesConcat(m.data, maxSize - m.HeaderSize());
  }

  predicate OfPieces(h: seq<UdpMessage>, m: UdpMessage, packetId: u16, maxSize: nat) {
    forall j :: 0 <= j < |h| && Defrag.IsFragment(h[j]) ==> Piece(h[j], m, packetId, maxSize)
  }

  /** In the message's traffic, every fragment is one of its pieces. */
  lemma {:induction false} RunOfPieces(m: UdpMessage, packetId: u16, maxSize: nat, arrivals: seq<seq<byte>>)
    requires m.Typed() && m.HeaderSize() < maxSize < m.Size()
    requires UdpRelay.Traffic(Intended(m, packetId, maxSize), arrivals)
    ensures OfPieces(UdpRelay.Messages(arrivals), m, packetId, maxSize)
    decreases |arrivals|
  {
    if arrivals != [] {
      var before, last := arrivals[..|arrivals| - 1], arrivals[|arrivals| - 1];
      RunOfPieces(m, packetId, maxSize, before);
      if !UdpRelay.Noise(last) {
        PieceOfMessage(m, packetId, maxSize, last);
      }
    }
  }

  lemma {:induction false} RunWithin(h: seq<UdpMessage>, cap: nat)
    requires forall j :: 0 <= j < |h| && Defrag.IsFragment(h[j]) ==> |h[j].data| <= cap
    ensures forall j :: 0 <= j < |Defrag.CurrentRun(h)| ==> |Defrag.CurrentRun(h)[j].data| <= cap
  {
    if h != [] {
      RunWithin(h[..|h| - 1], cap);
    }
  }

  lemma {:induction false} FirstWithin(run: seq<UdpMessage>, id: nat, cap: nat)
    requires forall j :: 0 <= j < |run| ==> |run[j].data| <= cap
    ensures Defrag.First(run, id).Some? ==> |Defrag.First(run, id).value.data| <= cap
  {
    if run != [] {
      FirstWithin(run[1..], id, cap);
    }
  }

  lemma {:induction false} Scale(a: nat, b: nat, cap: nat)
    requires a <= b
    ensures a * cap <= b * cap
  {
  }

  /** A byte counts the pieces, so no assembled message is longer than 255 of them. */
  lemma {:induction false} AssembledWithin(run: seq<UdpMessage>, cap: nat)
    requires Defrag.Complete(run) && forall j :: 0 <= j < |run| ==> |run[j].data| <= cap
    ensures |Defrag.Assembled(run)| <= 255 * cap
  {
    var pieces := Defrag.Firsts(run);
    forall i | 0 <= i < |pieces|
      ensures |pieces[i]| <= cap
    {
      FirstWithin(run, i, cap);
    }
    ConcatLength(pieces, cap);
    Scale(|pieces|, 255, cap);
  }

  lemma {:induction false} OutputWithin(d: Defrag.State, h: seq<UdpMessage>, f: UdpMessage, cap: nat)
    requires Defrag.Unrelated(d, h + [f]) && |f.data| <= cap
    requires forall j :: 0 <= j < |h + [f]| && Defrag.IsFragment((h + [f])[j]) ==> |(h + [f])[j].data| <= cap
    ensures var out := Defrag.Step(Defrag.After(d, h), f).out;
            out.Some? ==> |out.value.data| <= 255 * cap
  {
    Defrag.RefinesFrom(d, h, f);
    RunWithin(h + [f], cap);
    var run := Defrag.CurrentRun(h + [f]);
    if Defrag.Complete(run) {
      AssembledWithin(run, cap);
    }
  }

  lemma {:induction false} PiecesUnrelated(
      d: Defrag.State, h: seq<UdpMessage>, m: UdpMessage, packetId: u16, maxSize: nat)
    requires OfPieces(h, m, packetId, maxSize) && maxSize < m.Size() && Clear(d, m, packetId, maxSize)
    ensures Defrag.Unrelated(d, h)
  {
  }

  /** Whatever the datagrams of a message that has to be cut return is at most 255 pieces long. */
  lemma {:induction false} ReturnsWithin(
      m: UdpMessage, packetId: u16, maxSize: nat, d: Defrag.State, arrivals: seq<seq<byte>>, k: nat, cap: nat)
    requires m.Typed() && m.HeaderSize() + cap == maxSize < m.Size() && cap > 0 && Clear(d, m, packetId, maxSize)
    requires UdpRelay.Traffic(Intended(m, packetId, maxSize), arrivals)
    requires k < |arrivals| && arrivals[k] in Intended(m, packetId, maxSize)
    ensures var out := UdpRelay.Output(d, arrivals, k);
            out.Some? ==> |out.value.data| <= 255 * cap
  {
    if UdpCodec.Parse(arrivals[k]).Ok? {
      var h, f := UdpRelay.Messages(arrivals[..k]), UdpCodec.Parse(arrivals[k]).msg;
      MessagesUpTo(arrivals, k);
      RunOfPieces(m, packetId, maxSize, arrivals[..k + 1]);
      PieceOfMessage(m, packetId, maxSize, arrivals[k]);
      PieceOutputWithin(m, packetId, maxSize, d, h, f, cap);
    }
  }

  lemma {:induction false} MessagesUpTo(arrivals: seq<seq<byte>>, k: nat)
    requires k < |arrivals| && UdpCodec.Parse(arrivals[k]).Ok?
    ensures UdpRelay.Messages(arrivals[..k + 1]) ==
            UdpRelay.Messages(arrivals[..k]) + [UdpCodec.Parse(arrivals[k]).msg]
  {
    assert arrivals[..k + 1][..k] == arrivals[..k];
  }

  lemma {:induction false} PieceOutputWithin(
      m: UdpMessage, packetId: u16, maxSize: nat, d: Defrag.State, h: seq<UdpMessage>, f: UdpMessage, cap: nat)
    requires m.HeaderSize() + cap == maxSize < m.Size() && Clear(d, m, packetId, maxSize)
    requires OfPieces(h + [f], m, packetId, maxSize) && Piece(f, m, packetId, maxSize)
    ensures var out := Defrag.Step(Defrag.After(d, h), f).out;
            out.Some? ==> |out.value.data| <= 255 * cap
  {
    PiecesUnrelated(d, h + [f], m, packetId, maxSize);
    OutputWithin(d, h, f, cap);
  }

  /** What is not deliverable comes back at no arrival of its datagrams, in any traffic. */
  lemma {:induction false} UndeliverableNeverReturned(
      m: UdpMessage, packetId: u16, maxSize: nat, d: Defrag.State, arrivals: seq<seq<byte>>, k: nat)
    requires m.Typed() && !Deliverable(m, maxSize) && Clear(d, m, packetId, maxSize)
    requires UdpRelay.Traffic(Intended(m, packetId, maxSize), arrivals)
    requires k < |arrivals| && arrivals[k] in Intended(m, packetId, maxSize)
    ensures !Carries(UdpRelay.Output(d, arrivals, k), m)
  {
    if UdpCodec.Parse(arrivals[k]).Ok? {
      if m.Size() <= maxSize {
        RoundTrip(m);
      } else {
        PieceOfMessage(m, packetId, maxSize, arrivals[k]);
        if |m.data| > 255 * (maxSize - m.HeaderSize()) {
          ReturnsWithin(m, packetId, maxSize, d, arrivals, k, maxSize - m.HeaderSize());
        }
      }
    }
  }

  /**
    Exactly which payloads get through: when everything `send` put on the wire has arrived, in
    whatever order and company, the peer's reader was handed the payload if and only if it is
    deliverable.
   */
  lemma {:induction false} DeliveredIff(
      m: UdpMessage, packetId: u16, maxSize: nat, d: Defrag.State, arrivals: seq<seq<byte>>)
    requires m.Typed() && m.fragCount == 1 && Clear(d, m, packetId, maxSize)
    requires UdpRelay.Traffic(Intended(m, packetId, maxSize), arrivals)
    requires UdpRelay.AllArrived(Intended(m, packetId, maxSize), arrivals)
    ensures Delivers(m, packetId, maxSize, d, arrivals) <==> Deliverable(m, maxSize)
  {
    var wire := Intended(m, packetId, maxSize);
    if !Deliverable(m, maxSize) {
      forall k | 0 <= k < |arrivals| && arrivals[k] in wire
        ensures !Carries(UdpRelay.Output(d, arrivals, k), m)
      {
        UndeliverableNeverReturned(m, packetId, maxSize, d, arrivals, k);
      }
    } else if m.Size() <= maxSize {
      assert wire[0] in arrivals;
      var k :| 0 <= k < |arrivals| && arrivals[k] == wire[0];
      WholeDatagram(m, packetId, maxSize, d, arrivals, k);
    } else {
      var k := SendThenReceive(m, packetId, maxSize, d, arrivals);
      assert arrivals[k] in wire;
    }
  }

  /** An acceptable message that fits the scratch buffer and is lost although every datagram of it arrives. */
  lemma {:induction false} LostAtSixteen()
    ensures var m := UdpMessage(1, 0, 0, 1, [0x61], seq(4086, _ => 0));
            var maxSize := m.HeaderSize() + 16;
            && m.Typed() && m.Parseable() && m.Size() <= MAX_UDP_SIZE
            && Intended(m, 1, maxSize) != []
            && !Delivers(m, 1, maxSize, Defrag.INITIAL, Intended(m, 1, maxSize))
  {
    var m := UdpMessage(1, 0, 0, 1, [0x61], seq(4086, _ => 0));
    var maxSize := m.HeaderSize() + 16;
    assert Utf8.Valid([0x61]);
    NumberedIff(m.(packetId := 1), maxSize);
    DeliveredIff(m, 1, maxSize, Defrag.INITIAL, Intended(m, 1, maxSize));
  }
}
