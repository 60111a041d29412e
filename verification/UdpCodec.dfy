/** The UDP message of the relay protocol and its wire format. */
module UdpCodec {
  import opened Bytes
  import opened ProtocolLimits
  import Utf8
  import Varint

  datatype UdpMessage = UdpMessage(
    sessionId: u32,
    packetId: u16,
    fragId: byte,
    fragCount: byte,
    addr: seq<byte>,
    data: seq<byte>)
  {
    /** What the source's types guarantee: the address is text, and its length is a machine word. */
    predicate Typed() {
      Utf8.Valid(addr) && |addr| <= Varint.MAX_VAR_INT8
    }

    function HeaderSize(): nat {
      4 + 2 + 1 + 1 + Varint.Len(|addr|) + |addr|
    }

    function Size(): nat {
      HeaderSize() + |data|
    }

    /** Messages the peer's parser accepts. */
    predicate Parseable() {
      Utf8.Valid(addr) && 1 <= |addr| <= MAX_MESSAGE_LENGTH && data != []
    }
  }

  /** The eight fixed bytes. */
  function Fixed(m: UdpMessage): (s: seq<byte>)
    ensures |s| == 8
  {
    BigEndian(m.sessionId, 4) + BigEndian(m.packetId, 2) + [m.fragId, m.fragCount]
  }

  /** The wire format. */
  function Encode(m: UdpMessage): (s: seq<byte>)
    requires m.Typed()
    ensures |s| == m.Size()
  {
    Fixed(m) + Varint.Encode(|m.addr|) + m.addr + m.data
  }

  datatype ParseError = UnexpectedEof | InvalidAddressLength | InvalidMessageLength | InvalidAddressEncoding
  datatype Parsed = Ok(msg: UdpMessage) | Err(error: ParseError)

  /** `parse_udp_message`: the checks in the source's order. */
  function Parse(s: seq<byte>): (r: Parsed)
  {
    if |s| < 8 then Err(UnexpectedEof)
    else
      var length := Varint.Decode(s[8..]);
      if length.Eof? then Err(UnexpectedEof)
      else if length.value == 0 || length.value > MAX_MESSAGE_LENGTH then Err(InvalidAddressLength)
      else
        var rest := s[8 + length.used..];
        if |rest| <= length.value then Err(InvalidMessageLength)
        else if !Utf8.Valid(rest[..length.value]) then Err(InvalidAddressEncoding)
        else
          Words(s);
          Ok(UdpMessage(Value(s[0..4]), Value(s[4..6]), s[6], s[7], rest[..length.value], rest[length.value..]))
  }

  lemma {:induction false} Words(s: seq<byte>)
    requires |s| >= 8
    ensures Value(s[0..4]) < 0x1_0000_0000 && Value(s[4..6]) < 0x1_0000
    ensures BigEndian(Value(s[0..4]), 4) == s[0..4] && BigEndian(Value(s[4..6]), 2) == s[4..6]
  {
    BigEndianOfValue(s[0..4]);
    BigEndianOfValue(s[4..6]);
    FourBytes();
  }

  lemma {:induction false} FourBytes()
    ensures Pow256(2) == 0x1_0000 && Pow256(4) == 0x1_0000_0000
  {
    assert Pow256(4) == 256 * 256 * Pow256(2);
  }

  lemma {:induction false} FixedParses(m: UdpMessage, rest: seq<byte>)
    ensures var s := Fixed(m) + rest;
            && Value(s[0..4]) == m.sessionId && Value(s[4..6]) == m.packetId
            && s[6] == m.fragId && s[7] == m.fragCount && s[8..] == rest
  {
    var s := Fixed(m) + rest;
    FourBytes();
    assert s[0..4] == BigEndian(m.sessionId, 4);
    assert s[4..6] == BigEndian(m.packetId, 2);
    ValueOfBigEndian(m.sessionId, 4);
    ValueOfBigEndian(m.packetId, 2);
  }

  /** Every message is parsed back from its own bytes exactly when the peer accepts such messages. */
  lemma {:induction false} RoundTrip(m: UdpMessage)
    requires m.Typed()
    ensures Parse(Encode(m)) == Ok(m) <==> m.Parseable()
    ensures Parse(Encode(m)).Ok? <==> m.Parseable()
  {
    var tail := m.addr + m.data;
    var len := Varint.Encode(|m.addr|);
    var s := Encode(m);
    assert s == Fixed(m) + (len + tail);
    FixedParses(m, len + tail);
    Varint.RoundTrip(|m.addr|, tail);
    assert s[8 + |len|..] == tail;
    if |m.addr| < |tail| {
      assert tail[..|m.addr|] == m.addr && tail[|m.addr|..] == m.data;
    }
  }

  /** Every datagram with a whole header is judged by its parts, however the address length is spelled. */
  lemma {:induction false} ParseVerdict(m: UdpMessage, n: nat, w: nat, rest: seq<byte>)
    requires Varint.IsWidth(w) && n < Varint.Capacity(w)
    ensures Parse(Fixed(m) + (Varint.Spelled(n, w) + rest)) ==
            if n == 0 || n > 2048 then Err(InvalidAddressLength)
            else if |rest| <= n then Err(InvalidMessageLength)
            else if !Utf8.Valid(rest[..n]) then Err(InvalidAddressEncoding)
            else Ok(m.(addr := rest[..n], data := rest[n..]))
  {
    var tail := Varint.Spelled(n, w) + rest;
    var s := Fixed(m) + tail;
    FixedParses(m, tail);
    Varint.SpelledDecodes(n, w, rest);
    assert s[8 + w..] == rest by { assert s[8 + w..] == tail[w..]; }
  }

  /** Every other datagram is too short. */
  lemma {:induction false} ShortDatagram(s: seq<byte>)
    requires |s| < 8 || Varint.Decode(s[8..]).Eof?
    ensures Parse(s) == Err(UnexpectedEof)
  {
  }

  /** The bytes an accepted datagram spent on its address length. */
  function LengthWidth(s: seq<byte>): nat
    requires Parse(s).Ok?
  {
    Varint.Decode(s[8..]).used
  }

  /** An accepted datagram is its fixed bytes, its length bytes, its address and its data. */
  lemma {:induction false} ParsedParts(s: seq<byte>)
    requires Parse(s).Ok?
    ensures var m, w := Parse(s).msg, LengthWidth(s);
            && 8 + w <= |s| && m.Parseable() && m.Typed()
            && Fixed(m) == s[..8] && s[8 + w..] == m.addr + m.data
            && Varint.Decode(s[8..]) == Varint.Decoded(|m.addr|, w)
  {
    var m := Parse(s).msg;
    Varint.DecodeSound(s[8..]);
    Words(s);
    assert Fixed(m) == s[0..4] + s[4..6] + [s[6], s[7]];
  }

  /**
    Every accepted datagram re-serializes to no more bytes, to the same message, and to the very
    same bytes exactly when its address length was written in the fewest bytes.
   */
  lemma {:induction false} Reencode(s: seq<byte>)
    requires Parse(s).Ok?
    ensures var m := Parse(s).msg;
            && m.Parseable() && m.Typed()
            && m.Size() <= |s|
            && Parse(Encode(m)) == Ok(m)
            && (Encode(m) == s <==> LengthWidth(s) == Varint.Len(|m.addr|))
  {
    var m, w := Parse(s).msg, LengthWidth(s);
    ParsedParts(s);
    RoundTrip(m);
    Varint.DecodeSound(s[8..]);
    var tail := m.addr + m.data;
    assert |s| == 8 + w + |tail|;
    if w == Varint.Len(|m.addr|) {
      var len := Varint.Encode(|m.addr|);
      assert s[8..8 + w] == s[8..][..w] == len;
      assert s == s[..8] + s[8..8 + w] + s[8 + w..];
      Associate(Fixed(m) + len, m.addr, m.data);
    }
  }

  /** `copy_from_slice`: src over b from position at. */
  method CopyFromSlice(b: array<byte>, at: nat, src: seq<byte>)
    requires at + |src| <= b.Length
    modifies b
    ensures b[..] == Splice(old(b[..]), at, src)
  {
    for i := 0 to |src|
      invariant b[..] == Splice(old(b[..]), at, src[..i])
    {
      SpliceNext(old(b[..]), at, src, i);
      b[at + i] := src[i];
    }
    assert src[..|src|] == src;
  }

  /** `serialize`: exactly Size() bytes at the front of the buffer, or nothing at all. */
  method Serialize(m: UdpMessage, buf: array<byte>) returns (n: Option<nat>)
    requires m.Typed()
    modifies buf
    ensures n == if buf.Length < m.Size() then None else Some(m.Size())
    ensures n.None? ==> buf[..] == old(buf[..])
    ensures n.Some? ==> buf[..n.value] == Encode(m) && buf[n.value..] == old(buf[n.value..])
  {
    if buf.Length < m.Size() {
      return None;
    }
    ghost var b := buf[..];
    WriteHeader(m, buf);
    CopyFromSlice(buf, m.HeaderSize(), m.data);
    SpliceAgain(b, 0, Header(m), m.data);
    SpliceFront(b, Encode(m));
    n := Some(m.HeaderSize() + |m.data|);
  }

  /** Everything before the data. */
  function Header(m: UdpMessage): (s: seq<byte>)
    requires m.Typed()
    ensures |s| == m.HeaderSize()
  {
    Fixed(m) + Varint.Encode(|m.addr|) + m.addr
  }

  method WriteHeader(m: UdpMessage, buf: array<byte>)
    requires m.Typed() && buf.Length >= m.HeaderSize()
    modifies buf
    ensures buf[..] == Splice(old(buf[..]), 0, Header(m))
  {
    ghost var b := buf[..];
    WriteFixed(m, buf);
    var i := Varint.Put(buf, 8, |m.addr|);
    ghost var length := Varint.Encode(|m.addr|);
    SpliceAgain(b, 0, Fixed(m), length);
    CopyFromSlice(buf, 8 + i, m.addr);
    SpliceAgain(b, 0, Fixed(m) + length, m.addr);
  }

  method WriteFixed(m: UdpMessage, buf: array<byte>)
    requires buf.Length >= 8
    modifies buf
    ensures buf[..] == Splice(old(buf[..]), 0, Fixed(m))
  {
    ghost var b := buf[..];
    var id, pkt := BigEndian(m.sessionId, 4), BigEndian(m.packetId, 2);
    CopyFromSlice(buf, 0, id);
    CopyFromSlice(buf, 4, pkt);
    SpliceAgain(b, 0, id, pkt);
    CopyFromSlice(buf, 6, [m.fragId, m.fragCount]);
    SpliceAgain(b, 0, id + pkt, [m.fragId, m.fragCount]);
  }

  lemma {:induction false} SpliceFront(s: seq<byte>, src: seq<byte>)
    requires |src| <= |s|
    ensures Splice(s, 0, src)[..|src|] == src && Splice(s, 0, src)[|src|..] == s[|src|..]
  {
  }
}
