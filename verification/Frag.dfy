/** Splitting an outbound UDP message into fragments that fit a datagram. */
module Frag {
  import opened Bytes
  import opened ProtocolLimits
  import opened UdpCodec

  function Min(a: nat, b: nat): nat { if a < b then a else b }

  function CeilDiv(a: nat, b: nat): nat
    requires b > 0
  {
    (a + b - 1) / b
  }

  /** All pieces back to back. */
  function Concat(pieces: seq<seq<byte>>): seq<byte> {
    if pieces == [] then [] else pieces[0] + Concat(pieces[1..])
  }

  /** The greedy cut: full pieces of cap bytes, then the remainder. */
  function Pieces(data: seq<byte>, cap: nat): (ps: seq<seq<byte>>)
    requires cap > 0
    decreases |data|
  {
    if data == [] then []
    else [data[..Min(cap, |data|)]] + Pieces(data[Min(cap, |data|)..], cap)
  }

  /** Fragment i of a message cut into pieces; both counters are bytes and wrap. */
  function Labelled(m: UdpMessage, count: nat, pieces: seq<seq<byte>>): (frags: seq<UdpMessage>)
    ensures |frags| == |pieces|
  {
    seq(|pieces|, i requires 0 <= i < |pieces| =>
      m.(fragId := i % 256, fragCount := count % 256, data := pieces[i]))
  }

  /** The fragments of m for datagrams of at most maxSize bytes: m itself, nothing, or the greedy cut. */
  function Fragments(m: UdpMessage, maxSize: nat): seq<UdpMessage> {
    if m.Size() <= maxSize then [m]
    else if maxSize <= m.HeaderSize() then []
    else
      var pieces := Pieces(m.data, maxSize - m.HeaderSize());
      Labelled(m, |pieces|, pieces)
  }

  lemma {:induction false} PieceCount(data: seq<byte>, cap: nat)
    requires cap > 0
    ensures |Pieces(data, cap)| == CeilDiv(|data|, cap)
    decreases |data|
  {
    if |data| == 0 {
      assert (cap - 1) / cap == 0;
    } else if |data| <= cap {
      assert data[|data|..] == [];
      assert Pieces(data, cap) == [data[..|data|]] + Pieces(data[|data|..], cap);
      CeilOne(|data|, cap);
    } else {
      PieceCount(data[cap..], cap);
      CeilStep(|data|, cap);
    }
  }

  lemma {:induction false} QuotientUnique(a: int, b: int, q: int, r: int)
    requires b > 0 && a == b * q + r && 0 <= r < b
    ensures a / b == q
  {
    var d := a / b - q;
    assert (d >= 1 ==> b * d >= b) && (d <= -1 ==> b * d <= -b);
    assert b * d == r - a % b by { assert a == b * (a / b) + a % b; }
  }

  lemma {:induction false} CeilOne(n: nat, cap: nat)
    requires 0 < n <= cap
    ensures CeilDiv(n, cap) == 1
  {
    QuotientUnique(n + cap - 1, cap, 1, n - 1);
  }

  lemma {:induction false} CeilStep(n: nat, cap: nat)
    requires 0 < cap <= n
    ensures CeilDiv(n, cap) == 1 + CeilDiv(n - cap, cap)
  {
    var q, r := (n - 1) / cap, (n - 1) % cap;
    assert n - 1 == cap * q + r;
    assert cap * (q + 1) == cap * q + cap;
    QuotientUnique(n + cap - 1, cap, q + 1, r);
  }

  /** ceil(n / cap) <= k exactly when k pieces of cap bytes suffice. */
  lemma {:induction false} CeilBound(n: nat, cap: nat, k: nat)
    requires cap > 0
    ensures CeilDiv(n, cap) <= k <==> n <= k * cap
  {
    var q := CeilDiv(n, cap);
    var r := (n + cap - 1) % cap;
    assert n + cap - 1 == cap * q + r && 0 <= r < cap;
    if q <= k {
      assert q * cap <= k * cap;
    } else {
      assert (k + 1) * cap <= q * cap;
    }
  }

  lemma {:induction false} PiecesConcat(data: seq<byte>, cap: nat)
    requires cap > 0
    ensures Concat(Pieces(data, cap)) == data
    ensures forall i :: 0 <= i < |Pieces(data, cap)| ==> 0 < |Pieces(data, cap)[i]| <= cap
    decreases |data|
  {
    if data != [] {
      var n := Min(cap, |data|);
      PiecesConcat(data[n..], cap);
      assert data == data[..n] + data[n..];
    }
  }

  lemma {:induction false} ConcatLength(pieces: seq<seq<byte>>, cap: nat)
    requires forall i :: 0 <= i < |pieces| ==> |pieces[i]| <= cap
    ensures |Concat(pieces)| <= |pieces| * cap
  {
    if pieces != [] {
      ConcatLength(pieces[1..], cap);
      assert |pieces| * cap == cap + (|pieces| - 1) * cap;
    }
  }

  function Payloads(frags: seq<UdpMessage>): (ps: seq<seq<byte>>)
    ensures |ps| == |frags|
  {
    seq(|frags|, i requires 0 <= i < |frags| => frags[i].data)
  }

  /** The fragments carry the payload, in order, and each fits; every other field is the message's. */
  lemma {:induction false} LosslessAndFitting(m: UdpMessage, maxSize: nat)
    requires m.HeaderSize() < maxSize
    ensures Concat(Payloads(Fragments(m, maxSize))) == m.data
    ensures forall f :: f in Fragments(m, maxSize) ==>
              f.Size() <= maxSize && f.(fragId := m.fragId, fragCount := m.fragCount, data := m.data) == m
  {
    var frags := Fragments(m, maxSize);
    if m.Size() <= maxSize {
      assert Payloads(frags) == [m.data];
      assert Concat([m.data]) == m.data + Concat([]);
    } else {
      var pieces := Pieces(m.data, maxSize - m.HeaderSize());
      PiecesConcat(m.data, maxSize - m.HeaderSize());
      assert Payloads(frags) == pieces;
    }
  }

  /** No cut into pieces that fit has fewer pieces. */
  lemma {:induction false} Fewest(m: UdpMessage, maxSize: nat, pieces: seq<seq<byte>>)
    requires m.HeaderSize() < maxSize && m.data != []
    requires Concat(pieces) == m.data
    requires forall i :: 0 <= i < |pieces| ==> m.(data := pieces[i]).Size() <= maxSize
    ensures |Fragments(m, maxSize)| <= |pieces|
  {
    var cap := maxSize - m.HeaderSize();
    assert forall i :: 0 <= i < |pieces| ==> m.(data := pieces[i]).Size() == m.HeaderSize() + |pieces[i]|;
    ConcatLength(pieces, cap);
    CeilBound(|m.data|, cap, |pieces|);
    PieceCount(m.data, cap);
  }

  /** Fragment ids and counts as a reader of the protocol expects them. */
  predicate Numbered(frags: seq<UdpMessage>) {
    forall i :: 0 <= i < |frags| ==> frags[i].fragId == i && frags[i].fragCount == |frags|
  }

  lemma {:induction false} LabelledNumbered(m: UdpMessage, pieces: seq<seq<byte>>)
    ensures Numbered(Labelled(m, |pieces|, pieces)) <==> |pieces| <= 255
  {
    var frags := Labelled(m, |pieces|, pieces);
    if |pieces| > 255 {
      assert frags[0].fragCount == |pieces| % 256 != |pieces|;
    }
  }

  /** The numbering is right exactly when at most 255 datagrams' worth of payload is sent. */
  lemma {:induction false} NumberedIff(m: UdpMessage, maxSize: nat)
    requires m.HeaderSize() < maxSize < m.Size()
    ensures |Fragments(m, maxSize)| >= 2
    ensures Numbered(Fragments(m, maxSize)) <==> |m.data| <= 255 * (maxSize - m.HeaderSize())
  {
    var cap := maxSize - m.HeaderSize();
    LabelledNumbered(m, Pieces(m.data, cap));
    PieceCount(m.data, cap);
    CeilBound(|m.data|, cap, 255);
    CeilBound(|m.data|, cap, 1);
  }

  /** The 4096-byte scratch buffer keeps the numbering right once 17 payload bytes fit a datagram. */
  lemma {:induction false} ScratchBufferBound(m: UdpMessage, maxSize: nat)
    requires m.Size() <= MAX_UDP_SIZE
    requires m.HeaderSize() + 17 <= maxSize < m.Size()
    ensures Numbered(Fragments(m, maxSize))
  {
    var cap := maxSize - m.HeaderSize();
    assert 255 * 17 <= 255 * cap;
    NumberedIff(m, maxSize);
  }

  /** With 16 payload bytes per datagram a message that still fits the scratch buffer breaks it. */
  lemma {:induction false} SixteenIsTooFew()
    ensures var m := UdpMessage(1, 1, 0, 1, [0x61], seq(4086, _ => 0));
            && m.Size() <= MAX_UDP_SIZE && m.HeaderSize() + 16 < m.Size()
            && !Numbered(Fragments(m, m.HeaderSize() + 16))
  {
    var m := UdpMessage(1, 1, 0, 1, [0x61], seq(4086, _ => 0));
    NumberedIff(m, m.HeaderSize() + 16);
  }

  lemma {:induction false} NextPiece(data: seq<byte>, off: nat, cap: nat)
    requires cap > 0 && off < |data|
    ensures var size := Min(|data| - off, cap);
            Pieces(data[off..], cap) == [data[off..off + size]] + Pieces(data[off + size..], cap)
  {
    var size := Min(|data| - off, cap);
    assert data[off..][..size] == data[off..off + size];
    assert data[off..][size..] == data[off + size..];
  }

  lemma {:induction false} CutNext(data: seq<byte>, cap: nat, off: nat, pieces: seq<seq<byte>>, k: nat)
    requires cap > 0 && off < |data| && k <= |pieces| && pieces[k..] == Pieces(data[off..], cap)
    ensures var size := Min(|data| - off, cap);
            && k < |pieces| && pieces[k] == data[off..off + size]
            && pieces[k + 1..] == Pieces(data[off + size..], cap)
            && pieces[..k + 1] == pieces[..k] + [pieces[k]]
  {
    NextPiece(data, off, cap);
    assert pieces[k] == pieces[k..][0];
    assert pieces[k + 1..] == pieces[k..][1..];
  }

  /** One turn of the cutting loop: the next piece starts where the ones cut so far end. */
  lemma {:induction false} CutTurn(
      m: UdpMessage, cap: nat, off: nat, pieces: seq<seq<byte>>, frags: seq<UdpMessage>, frag: UdpMessage)
    requires cap > 0 && off < |m.data| && |frags| <= |pieces|
    requires pieces[|frags|..] == Pieces(m.data[off..], cap)
    requires frags == Labelled(m, |pieces|, pieces[..|frags|])
    requires frag == m.(fragId := |frags| % 256, fragCount := |pieces| % 256,
                        data := m.data[off..off + Min(|m.data| - off, cap)])
    ensures |frags| < |pieces|
    ensures pieces[|frags| + 1..] == Pieces(m.data[off + Min(|m.data| - off, cap)..], cap)
    ensures frags + [frag] == Labelled(m, |pieces|, pieces[..|frags| + 1])
  {
    CutNext(m.data, cap, off, pieces, |frags|);
    LabelNext(m, |pieces|, pieces[..|frags|], frag.data);
  }

  lemma {:induction false} NextByte(n: nat)
    ensures (n % 256 + 1) % 256 == (n + 1) % 256
  {
  }

  lemma {:induction false} LabelNext(m: UdpMessage, count: nat, pieces: seq<seq<byte>>, piece: seq<byte>)
    ensures Labelled(m, count, pieces + [piece]) ==
            Labelled(m, count, pieces) + [m.(fragId := |pieces| % 256, fragCount := count % 256, data := piece)]
  {
  }

  /** The cutting loop of `frag_udp_message`. */
  method Cut(m: UdpMessage, cap: nat, fragCount: byte) returns (frags: seq<UdpMessage>)
    requires cap > 0 && fragCount == |Pieces(m.data, cap)| % 256
    ensures frags == Labelled(m, |Pieces(m.data, cap)|, Pieces(m.data, cap))
  {
    ghost var pieces := Pieces(m.data, cap);
    frags := [];
    var off := 0;
    var fragId: byte := 0;
    while off < |m.data|
      invariant 0 <= off <= |m.data| && |frags| <= |pieces|
      invariant pieces[|frags|..] == Pieces(m.data[off..], cap)
      invariant fragId == |frags| % 256
      invariant frags == Labelled(m, |pieces|, pieces[..|frags|])
    {
      var size := Min(|m.data| - off, cap);
      var frag := m.(fragId := fragId, fragCount := fragCount, data := m.data[off..off + size]);
      CutTurn(m, cap, off, pieces, frags, frag);
      NextByte(|frags|);
      frags := frags + [frag];
      off := off + size;
      fragId := (fragId + 1) % 256;
    }
    assert pieces[..|frags|] == pieces;
  }

  /** `frag_udp_message`. */
  method FragUdpMessage(m: UdpMessage, maxSize: nat) returns (frags: seq<UdpMessage>)
    ensures frags == Fragments(m, maxSize)
  {
    if m.Size() <= maxSize {
      return [m];
    }
    if maxSize <= m.HeaderSize() {
      return [];
    }
    var cap := maxSize - m.HeaderSize();
    PieceCount(m.data, cap);
    frags := Cut(m, cap, CeilDiv(|m.data|, cap) % 256);
  }
}
