/** The TCP proxy response: the cursor parser, the growing-buffer reader, and the proxied connection. */
module TcpResponse {
  import opened Bytes
  import opened ProtocolLimits
  import Utf8
  import Varint

  const CHUNK: nat := 256

  datatype ProtocolError = InvalidMessageLength | InvalidPaddingLength | InvalidMessageEncoding

  /** A parse of the front of a buffer; `used` is where the cursor stops. */
  datatype Parsed =
    | Response(ok: bool, message: seq<byte>, used: nat)
    | Eof
    | Bad(error: ProtocolError)

  /** The part after the status byte and the message: padding, then the encoding check. */
  function ParsePadding(s: seq<byte>, at: nat, ok: bool, message: seq<byte>): (r: Parsed)
    requires at <= |s|
    ensures r.Response? ==> at < r.used <= |s|
  {
    var padding := Varint.Decode(s[at..]);
    if padding.Eof? then Eof
    else if padding.value > MAX_PADDING_LENGTH then Bad(InvalidPaddingLength)
    else if |s| < at + padding.used + padding.value then Eof
    else if !Utf8.Valid(message) then Bad(InvalidMessageEncoding)
    else Response(ok, message, at + padding.used + padding.value)
  }

  /** `read_tcp_response` over a cursor at the start of s. */
  function Parse(s: seq<byte>): (r: Parsed)
    ensures r.Response? ==> r.used <= |s|
  {
    if s == [] then Eof
    else
      var length := Varint.Decode(s[1..]);
      if length.Eof? then Eof
      else if length.value > MAX_MESSAGE_LENGTH then Bad(InvalidMessageLength)
      else
        var start := 1 + length.used;
        if |s| < start + length.value then Eof
        else ParsePadding(s, start + length.value, s[0] == 0, s[start..start + length.value])
  }

  lemma {:induction false} DecodeAt(s: seq<byte>, t: seq<byte>, at: nat)
    requires at <= |s|
    ensures Varint.Decode(s[at..]).Decoded? ==>
              && Varint.Decode((s + t)[at..]) == Varint.Decode(s[at..])
              && Varint.Decode(s[at..]).used <= |s| - at
  {
    assert (s + t)[at..] == s[at..] + t;
    Varint.DecodeExtends(s[at..], t);
  }

  lemma {:induction false} PaddingMonotone(s: seq<byte>, t: seq<byte>, at: nat, ok: bool, message: seq<byte>)
    requires at <= |s| && !ParsePadding(s, at, ok, message).Eof?
    ensures ParsePadding(s + t, at, ok, message) == ParsePadding(s, at, ok, message)
  {
    DecodeAt(s, t, at);
  }

  /** A verdict other than "need more bytes" is final: more input cannot change it. */
  lemma {:induction false} PrefixMonotone(s: seq<byte>, t: seq<byte>)
    requires !Parse(s).Eof?
    ensures Parse(s + t) == Parse(s)
  {
    DecodeAt(s, t, 1);
    var length := Varint.Decode(s[1..]);
    if length.value <= MAX_MESSAGE_LENGTH {
      var start := 1 + length.used;
      assert (s + t)[start..start + length.value] == s[start..start + length.value];
      PaddingMonotone(s, t, start + length.value, s[0] == 0, s[start..start + length.value]);
    }
  }

  /** The wire format of a response. */
  function EncodeResponse(status: byte, message: seq<byte>, padding: seq<byte>): seq<byte>
    requires |message| <= Varint.MAX_VAR_INT8 && |padding| <= Varint.MAX_VAR_INT8
  {
    [status] + Varint.Encode(|message|) + message + Varint.Encode(|padding|) + padding
  }

  predicate Spellable(n: nat, w: nat) {
    Varint.IsWidth(w) && n < Varint.Capacity(w)
  }

  /** A padding length over the limit is refused as soon as it is read. */
  lemma {:induction false} PaddingLengthParses(
      front: seq<byte>, ok: bool, message: seq<byte>, n: nat, v: nat, rest: seq<byte>)
    requires Spellable(n, v)
    ensures var s := front + (Varint.Spelled(n, v) + rest);
            ParsePadding(s, |front|, ok, message) ==
            if n > MAX_PADDING_LENGTH then Bad(InvalidPaddingLength)
            else if |rest| < n then Eof
            else if !Utf8.Valid(message) then Bad(InvalidMessageEncoding)
            else Response(ok, message, |front| + v + n)
  {
    var s := front + (Varint.Spelled(n, v) + rest);
    assert s[|front|..] == Varint.Spelled(n, v) + rest;
    Varint.SpelledDecodes(n, v, rest);
  }

  /** So is a message length; otherwise the message is needed before anything else is looked at. */
  lemma {:induction false} MessageLengthParses(status: byte, n: nat, w: nat, rest: seq<byte>)
    requires Spellable(n, w)
    ensures var s := [status] + Varint.Spelled(n, w) + rest;
            Parse(s) ==
            if n > MAX_MESSAGE_LENGTH then Bad(InvalidMessageLength)
            else if |rest| < n then Eof
            else ParsePadding(s, 1 + w + n, status == 0, rest[..n])
  {
    var s := [status] + Varint.Spelled(n, w) + rest;
    assert s[1..] == Varint.Spelled(n, w) + rest;
    Varint.SpelledDecodes(n, w, rest);
    if n <= |rest| {
      assert s[1 + w..1 + w + n] == rest[..n];
    }
  }

  /**
    Every response is read back, however its lengths are spelled and whatever follows it, or refused
    for exactly the limit it breaks.
   */
  lemma {:induction false} SpelledParses(
      status: byte, message: seq<byte>, w: nat, padding: seq<byte>, v: nat, rest: seq<byte>)
    requires Spellable(|message|, w) && Spellable(|padding|, v)
    ensures var front := [status] + Varint.Spelled(|message|, w) + message;
            Parse(front + (Varint.Spelled(|padding|, v) + (padding + rest))) ==
            if |message| > MAX_MESSAGE_LENGTH then Bad(InvalidMessageLength)
            else if |padding| > MAX_PADDING_LENGTH then Bad(InvalidPaddingLength)
            else if !Utf8.Valid(message) then Bad(InvalidMessageEncoding)
            else Response(status == 0, message, |front| + v + |padding|)
  {
    var front := [status] + Varint.Spelled(|message|, w) + message;
    var tail := Varint.Spelled(|padding|, v) + (padding + rest);
    Associate([status] + Varint.Spelled(|message|, w), message, tail);
    assert (message + tail)[..|message|] == message;
    MessageLengthParses(status, |message|, w, message + tail);
    PaddingLengthParses(front, status == 0, message, |padding|, v, padding + rest);
  }

  /** In particular every response in the shortest spelling. */
  lemma {:induction false} EncodedParses(status: byte, message: seq<byte>, padding: seq<byte>, rest: seq<byte>)
    requires |message| <= Varint.MAX_VAR_INT8 && |padding| <= Varint.MAX_VAR_INT8
    ensures Parse(EncodeResponse(status, message, padding) + rest) ==
            if |message| > MAX_MESSAGE_LENGTH then Bad(InvalidMessageLength)
            else if |padding| > MAX_PADDING_LENGTH then Bad(InvalidPaddingLength)
            else if !Utf8.Valid(message) then Bad(InvalidMessageEncoding)
            else Response(status == 0, message, |EncodeResponse(status, message, padding)|)
  {
    Varint.EncodeIsSpelled(|message|);
    Varint.EncodeIsSpelled(|padding|);
    var front := [status] + Varint.Encode(|message|) + message;
    assert EncodeResponse(status, message, padding) + rest == front + (Varint.Encode(|padding|) + (padding + rest));
    SpelledParses(status, message, Varint.Len(|message|), padding, Varint.Len(|padding|), rest);
  }

  /** The longest response there can be. */
  const MAX_RESPONSE: nat := 1 + 8 + MAX_MESSAGE_LENGTH + 8 + MAX_PADDING_LENGTH

  /** The parser never asks for more than a maximal response. */
  lemma {:induction false} NeverEofBeyondMaximum(s: seq<byte>)
    requires |s| >= MAX_RESPONSE
    ensures !Parse(s).Eof?
  {
  }

  /** And it does ask for the last byte of one: the bound is the best possible. */
  lemma {:induction false} EofBoundIsTight() returns (s: seq<byte>)
    ensures |s| == MAX_RESPONSE - 1 && Parse(s).Eof?
  {
    var len := [0xC0, 0, 0, 0, 0, 0, 8, 0];
    var pad := [0xC0, 0, 0, 0, 0, 0, 16, 0];
    s := [0] + len + seq(MAX_MESSAGE_LENGTH, _ => 0x61) + pad + seq(MAX_PADDING_LENGTH - 1, _ => 0);
    assert s[1..][..8] == len;
    assert s[2057..][..8] == pad;
    WideForm(8, 0);
    WideForm(16, 0);
  }

  /** A two-byte number written in the eight-byte form. */
  lemma {:induction false} WideForm(hi: byte, lo: byte)
    ensures Varint.Payload([0xC0, 0, 0, 0, 0, 0, hi, lo]) == hi * 256 + lo
  {
    var zeros: seq<byte> := [0, 0, 0, 0, 0, 0];
    Zeros(zeros);
    var s := zeros + [hi] + [lo];
    assert s[..7] == zeros + [hi] && (zeros + [hi])[..6] == zeros;
    assert Value(zeros + [hi]) == hi;
    assert Value(s) == hi * 256 + lo;
    assert [0xC0 % 64] + [0xC0, 0, 0, 0, 0, 0, hi, lo][1..] == s;
  }

  lemma {:induction false} Zeros(s: seq<byte>)
    requires forall i :: 0 <= i < |s| ==> s[i] == 0
    ensures Value(s) == 0
  {
    if s != [] {
      Zeros(s[..|s| - 1]);
    }
  }

  // ----- the stream -----

  datatype Ending = Finished | Broken

  /** A receive stream: the bytes still to come, and how it ends once they are gone. */
  class RecvStream {
    var rest: seq<byte>
    const ending: Ending

    constructor (bytes: seq<byte>, ending: Ending)
      ensures rest == bytes && this.ending == ending
    {
      rest := bytes;
      this.ending := ending;
    }

    /** Some non-empty prefix that fits the caller's buffer, however the network happened to cut it. */
    method Read(max: nat) returns (chunk: seq<byte>)
      requires max > 0
      modifies this
      ensures old(rest) == chunk + rest
      ensures |chunk| <= max && (chunk == [] <==> old(rest) == [])
    {
      if |rest| == 0 {
        return [];
      }
      var n: int := *;
      if n < 1 || n > max || n > |rest| {
        n := 1;
      }
      chunk := rest[..n];
      rest := rest[n..];
    }
  }

  datatype ReadError = Protocol(error: ProtocolError) | ClosedEarly | Transport
  datatype Outcome = Ready(ok: bool, message: seq<byte>, leftover: seq<byte>) | Failed(error: ReadError)

  /** A verdict on what has been buffered is the verdict on the whole stream. */
  lemma {:induction false} Verdict(buf: seq<byte>, rest: seq<byte>)
    requires !Parse(buf).Eof?
    ensures Parse(buf + rest) == Parse(buf)
    ensures Parse(buf).Response? ==> (buf + rest)[Parse(buf).used..] == buf[Parse(buf).used..] + rest
  {
    PrefixMonotone(buf, rest);
  }

  lemma {:induction false} StillSmall(buf: seq<byte>)
    requires Parse(buf).Eof?
    ensures |buf| <= MAX_RESPONSE - 1
  {
    if |buf| >= MAX_RESPONSE {
      NeverEofBeyondMaximum(buf);
    }
  }

  /**
    `read_tcp_response` over a stream. The contract never mentions chunks: the verdict is that of
    one parse of everything the server sends, the bytes not consumed are the stream after the
    header, and at most a maximal response plus one chunk is ever taken from the stream.
   */
  method ReadResponse(stream: RecvStream) returns (r: Outcome)
    modifies stream
    ensures match Parse(old(stream.rest))
            case Response(ok, message, used) =>
              && r.Ready? && r.ok == ok && r.message == message
              && r.leftover + stream.rest == old(stream.rest)[used..]
            case Bad(error) => r == Failed(Protocol(error))
            case Eof => r == Failed(if stream.ending.Finished? then ClosedEarly else Transport) && stream.rest == []
    ensures |old(stream.rest)| - |stream.rest| <= MAX_RESPONSE - 1 + CHUNK
  {
    ghost var whole := stream.rest;
    var buf: seq<byte> := [];
    while true
      invariant buf + stream.rest == whole
      invariant |buf| <= MAX_RESPONSE - 1 + CHUNK
      decreases |stream.rest|
    {
      var parsed := Parse(buf);
      match parsed {
        case Response(ok, message, used) =>
          Verdict(buf, stream.rest);
          return Ready(ok, message, buf[used..]);
        case Eof =>
          StillSmall(buf);
          var chunk := stream.Read(CHUNK);
          if |chunk| == 0 {
            assert buf == whole;
            return Failed(if stream.ending.Finished? then ClosedEarly else Transport);
          }
          Associate(buf, chunk, stream.rest);
          buf := buf + chunk;
        case Bad(error) =>
          Verdict(buf, stream.rest);
          return Failed(Protocol(error));
      }
    }
  }

  // ----- the connection -----

  /** Everything a connection over this stream must deliver, once its response says ok. */
  function AfterHeader(s: seq<byte>): seq<byte>
    requires Parse(s).Response?
  {
    s[Parse(s).used..]
  }

  /** `Spent`: the deferred response was read and did not accept the connection. */
  datatype State = AwaitingResponse | Streaming(leftover: seq<byte>, pos: nat) | Spent

  /** `Panicked`: the future behind a fast-open connection was polled after it had finished. */
  datatype ReadResult = Bytes(bytes: seq<byte>) | Refused(message: seq<byte>) | Error(error: ReadError) | Panicked

  /** How many reads have room for anything. */
  function Positive(sizes: seq<nat>): nat {
    if sizes == [] then 0 else Positive(sizes[..|sizes| - 1]) + (if sizes[|sizes| - 1] > 0 then 1 else 0)
  }

  lemma {:induction false} Advance(leftover: seq<byte>, pos: nat, n: nat, rest: seq<byte>)
    requires pos + n <= |leftover|
    ensures leftover[pos..][..n] + (leftover[pos + n..] + rest) == leftover[pos..] + rest
  {
    var remaining := leftover[pos..];
    assert leftover[pos + n..] == remaining[n..];
    assert remaining[..n] + remaining[n..] == remaining;
    Associate(remaining[..n], remaining[n..], rest);
  }

  class TcpConn {
    var state: State
    const stream: RecvStream

    /** What is still to be delivered. */
    function Remaining(): seq<byte>
      requires Valid()
      reads this, stream
    {
      match state
      case AwaitingResponse => AfterHeader(stream.rest)
      case Streaming(leftover, pos) => leftover[pos..] + stream.rest
    }

    /** Accepted: either the response is still out and will be ok, or data is flowing. */
    predicate Valid()
      reads this, stream
    {
      match state
      case AwaitingResponse => Parse(stream.rest).Response? && Parse(stream.rest).ok
      case Streaming(leftover, pos) => pos <= |leftover|
      case Spent => false
    }

    /** Fast open: hand the connection out before the response has been read. */
    constructor FastOpen(stream: RecvStream)
      ensures this.stream == stream && state == AwaitingResponse
    {
      this.stream := stream;
      state := AwaitingResponse;
    }

    /** The response has been read and accepted. */
    constructor Established(stream: RecvStream, leftover: seq<byte>)
      ensures this.stream == stream && state == Streaming(leftover, 0)
      ensures Valid() && Remaining() == leftover + stream.rest
    {
      this.stream := stream;
      state := Streaming(leftover, 0);
    }

    /** What a read may answer on an accepted connection, given what remained and what remains. */
    predicate Serves(r: ReadResult, max: nat, before: seq<byte>)
      requires Valid()
      reads this, stream
    {
      if r.Bytes? then
        && r.bytes + Remaining() == before && |r.bytes| <= max
        && (r.bytes == [] ==> max == 0 || (Remaining() == [] && stream.ending.Finished?))
      else
        r == Error(Transport) && max > 0 && before == Remaining() == [] && stream.ending.Broken?
    }

    /** The part of `poll_read` that serves bytes: what was read past the header first, then the stream. */
    method Serve(max: nat) returns (r: ReadResult)
      requires Valid() && state.Streaming?
      modifies this, stream
      ensures Valid() && state.Streaming? && Serves(r, max, old(Remaining()))
    {
      if state.pos < |state.leftover| {
        var bytes := ServeLeftover(max);
        return Bytes(bytes);
      }
      assert state.leftover[state.pos..] == [];
      if max == 0 {
        return Bytes([]);
      }
      var bytes := stream.Read(max);
      r := if |bytes| == 0 && stream.ending.Broken? then Error(Transport) else Bytes(bytes);
    }

    /** The bytes that came in behind the response header. */
    method ServeLeftover(max: nat) returns (bytes: seq<byte>)
      requires Valid() && state.Streaming? && state.pos < |state.leftover|
      modifies this`state
      ensures Valid() && state.Streaming? && bytes + Remaining() == old(Remaining())
      ensures |bytes| <= max && (bytes == [] ==> max == 0)
    {
      var remaining := state.leftover[state.pos..];
      var n := if |remaining| < max then |remaining| else max;
      Advance(state.leftover, state.pos, n, stream.rest);
      state := state.(pos := state.pos + n);
      return remaining[..n];
    }

    /**
      `poll_read` into a buffer with room for max bytes. On an accepted connection: the next bytes of
      what remains, in order, nothing lost or repeated, empty only for an empty buffer or at the clean
      end, and an error only where the stream broke off. On a fast-open connection whose response
      does not accept it, the first read reports why and no later read is allowed.
     */
    method Read(max: nat) returns (r: ReadResult)
      requires state.Streaming? ==> Valid()
      modifies this, stream
      ensures old(Valid()) ==> Valid() && state.Streaming? && Serves(r, max, old(Remaining()))
      ensures !old(Valid()) ==> state == Spent
      ensures !old(Valid()) && old(state).AwaitingResponse? ==>
                match Parse(old(stream.rest))
                case Response(_, message, _) => r == Refused(message)
                case Bad(error) => r == Error(Protocol(error))
                case Eof => r == Error(if stream.ending.Finished? then ClosedEarly else Transport)
      ensures old(state).Spent? ==> r == Panicked && stream.rest == old(stream.rest)
    {
      if state.Spent? {
        return Panicked;
      }
      if state.AwaitingResponse? {
        var outcome := ReadResponse(stream);
        if outcome.Failed? {
          state := Spent;
          return Error(outcome.error);
        }
        if !outcome.ok {
          state := Spent;
          return Refused(outcome.message);
        }
        state := Streaming(outcome.leftover, 0);
        assert outcome.leftover[0..] == outcome.leftover;
        assert Remaining() == old(Remaining());
      }
      r := Serve(max);
    }

    /**
      Any sequence of reads, up to the first that fails: what is delivered is exactly what is no
      longer remaining, and every read with room for a byte brings one until nothing remains. Only a
      stream that broke off fails, and not before everything was delivered.
     */
    method ReadAll(sizes: seq<nat>) returns (delivered: seq<byte>, failed: bool)
      requires Valid()
      modifies this, stream
      ensures Valid() && delivered + Remaining() == old(Remaining())
      ensures |delivered| >= Positive(sizes) || Remaining() == []
      ensures failed ==> Remaining() == [] && stream.ending.Broken?
      ensures stream.ending.Broken? && Positive(sizes) > |old(Remaining())| ==> failed
    {
      delivered, failed := [], false;
      assert [] + Remaining() == Remaining();
      for i := 0 to |sizes|
        invariant Valid() && delivered + Remaining() == old(Remaining())
        invariant |delivered| >= Positive(sizes[..i]) || (Remaining() == [] && stream.ending.Finished?)
      {
        assert sizes[..i + 1][..i] == sizes[..i];
        var r := Read(sizes[i]);
        if !r.Bytes? {
          return delivered, true;
        }
        Associate(delivered, r.bytes, Remaining());
        delivered := delivered + r.bytes;
      }
      assert sizes[..|sizes|] == sizes;
    }
  }

  datatype Dialed = Connected(conn: TcpConn) | Rejected(message: seq<byte>) | NoResponse(error: ReadError)

  /**
    The response half of `tcp`. With fast open the connection comes back at once; without, only
    when the response accepts it. Either way it goes on to deliver exactly the stream after the header.
   */
  method Open(stream: RecvStream, fastOpen: bool) returns (r: Dialed)
    modifies stream
    ensures fastOpen ==>
              r.Connected? && fresh(r.conn) && r.conn.stream == stream && r.conn.state.AwaitingResponse?
              && stream.rest == old(stream.rest)
    ensures match Parse(old(stream.rest))
            case Response(ok, message, _) =>
              if ok then
                && r.Connected? && fresh(r.conn) && r.conn.stream == stream
                && r.conn.Valid() && r.conn.Remaining() == AfterHeader(old(stream.rest))
              else if fastOpen then !r.conn.Valid() else r == Rejected(message)
            case Bad(error) => if fastOpen then !r.conn.Valid() else r == NoResponse(Protocol(error))
            case Eof =>
              if fastOpen then !r.conn.Valid()
              else r == NoResponse(if stream.ending.Finished? then ClosedEarly else Transport)
  {
    if fastOpen {
      var conn := new TcpConn.FastOpen(stream);
      return Connected(conn);
    }
    var outcome := ReadResponse(stream);
    if outcome.Failed? {
      return NoResponse(outcome.error);
    }
    if !outcome.ok {
      return Rejected(outcome.message);
    }
    var conn := new TcpConn.Established(stream, outcome.leftover);
    return Connected(conn);
  }

  /**
    Opening and then reading, with and without fast open: always a prefix of the stream after the
    header, and exactly that stream once there were as many reads with room as it has bytes.
   */
  method OpenAndRead(stream: RecvStream, fastOpen: bool, sizes: seq<nat>) returns (delivered: seq<byte>, failed: bool)
    requires Parse(stream.rest).Response? && Parse(stream.rest).ok
    modifies stream
    ensures delivered <= AfterHeader(old(stream.rest))
    ensures Positive(sizes) >= |AfterHeader(old(stream.rest))| ==> delivered == AfterHeader(old(stream.rest))
    ensures failed ==> delivered == AfterHeader(old(stream.rest)) && stream.ending.Broken?
    ensures stream.ending.Broken? && Positive(sizes) > |AfterHeader(old(stream.rest))| ==> failed
  {
    var r := Open(stream, fastOpen);
    delivered, failed := r.conn.ReadAll(sizes);
  }
}
