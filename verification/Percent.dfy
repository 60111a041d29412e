/**
  Percent-encoding (section 2.1 of RFC 3986) and the application/x-www-form-urlencoded format
  of the WHATWG URL Standard, over bytes.
 */
module Percent {
  import opened Bytes
  import opened Ascii
  import Utf8

  type Text = seq<byte>

  /** What stays literal: RFC 3986 unreserved, the fragment set plus escapes for `%`, `#` and `+`, or the form set. */
  datatype EncodeSet = Userinfo | Fragment | Form

  predicate Alphanumeric(b: byte) {
    48 <= b <= 57 || 65 <= b <= 90 || 97 <= b <= 122
  }

  predicate Kept(set_: EncodeSet, b: byte) {
    match set_
    case Userinfo => Alphanumeric(b) || b == 45 || b == 46 || b == 95 || b == 126
    case Fragment => 33 <= b <= 126 && b !in [34, 60, 62, 96, 37, 35, 43]
    case Form => Alphanumeric(b) || b == 42 || b == 45 || b == 46 || b == 95
  }

  function HexDigit(n: nat): byte
    requires n < 16
  {
    if n < 10 then 48 + n else 55 + n
  }

  predicate IsHex(b: byte) {
    48 <= b <= 57 || 65 <= b <= 70 || 97 <= b <= 102
  }

  function HexValue(b: byte): (n: nat)
    requires IsHex(b)
    ensures n < 16
  {
    if b <= 57 then b - 48 else if b <= 70 then b - 55 else b - 87
  }

  /** One encoded byte; the form encoder writes a space as a plus. */
  function EncodeByte(set_: EncodeSet, b: byte): Text {
    if Kept(set_, b) then [b]
    else if set_.Form? && b == SPACE then [PLUS]
    else [PERCENT, HexDigit(b / 16), HexDigit(b % 16)]
  }

  function Encode(set_: EncodeSet, s: Text): Text {
    if s == [] then [] else EncodeByte(set_, s[0]) + Encode(set_, s[1..])
  }

  /** A percent sign not followed by two hexadecimal digits stands for itself. */
  function Decode(s: Text): Text {
    if s == [] then []
    else if s[0] == PERCENT && |s| >= 3 && IsHex(s[1]) && IsHex(s[2])
    then [16 * HexValue(s[1]) + HexValue(s[2])] + Decode(s[3..])
    else [s[0]] + Decode(s[1..])
  }

  function PlusToSpace(s: Text): (t: Text)
    ensures |t| == |s| && forall i :: 0 <= i < |s| ==> t[i] == if s[i] == PLUS then SPACE else s[i]
  {
    if s == [] then [] else [if s[0] == PLUS then SPACE else s[0]] + PlusToSpace(s[1..])
  }

  /** The literal escapes decode to the byte, whatever follows. */
  lemma {:induction false} DecodeByte(set_: EncodeSet, b: byte, rest: Text)
    requires !set_.Form?
    ensures Decode(EncodeByte(set_, b) + rest) == [b] + Decode(rest)
  {
    var e := EncodeByte(set_, b) + rest;
    if Kept(set_, b) {
      assert e[1..] == rest;
    } else {
      assert e[3..] == rest;
    }
  }

  /** Decoding undoes encoding, piece by piece. */
  lemma {:induction false} DecodeEncode(set_: EncodeSet, s: Text, rest: Text)
    requires !set_.Form?
    ensures Decode(Encode(set_, s) + rest) == s + Decode(rest)
  {
    if s == [] {
      assert Encode(set_, s) + rest == rest;
    } else {
      var head, tail := EncodeByte(set_, s[0]), Encode(set_, s[1..]);
      Associate(head, tail, rest);
      DecodeByte(set_, s[0], tail + rest);
      DecodeEncode(set_, s[1..], rest);
      Associate([s[0]], s[1..], Decode(rest));
      assert [s[0]] + s[1..] == s;
    }
  }

  lemma {:induction false} PlusConcat(s: Text, t: Text)
    ensures PlusToSpace(s + t) == PlusToSpace(s) + PlusToSpace(t)
  {
  }

  lemma {:induction false} FormByte(b: byte, rest: Text)
    ensures Decode(PlusToSpace(EncodeByte(Form, b)) + rest) == [b] + Decode(rest)
  {
    var e := EncodeByte(Form, b);
    if |e| == 1 {
      assert PlusToSpace(e) == [b];
      assert ([b] + rest)[1..] == rest;
    } else {
      assert PlusToSpace(e) == e;
      assert (e + rest)[3..] == rest;
    }
  }

  lemma {:induction false} FormDecodes(s: Text)
    ensures Decode(PlusToSpace(Encode(Form, s))) == s
  {
    if s != [] {
      var head, tail := EncodeByte(Form, s[0]), Encode(Form, s[1..]);
      PlusConcat(head, tail);
      FormByte(s[0], PlusToSpace(tail));
      FormDecodes(s[1..]);
    }
  }

  /** The bytes an encoder can emit. */
  predicate Emitted(set_: EncodeSet, b: byte) {
    Kept(set_, b) || b == PERCENT || Alphanumeric(b) || (set_.Form? && b == PLUS)
  }

  lemma {:induction false} EncodedAlphabet(set_: EncodeSet, s: Text)
    ensures forall i :: 0 <= i < |Encode(set_, s)| ==> Emitted(set_, Encode(set_, s)[i])
  {
    if s != [] {
      EncodedAlphabet(set_, s[1..]);
    }
  }

  // ----- forms -----

  /** Position of the first c, or the length. */
  function IndexOf(s: Text, c: byte): (i: nat)
    ensures i <= |s| && c !in s[..i] && (i < |s| ==> s[i] == c)
    ensures i == |s| <==> c !in s
  {
    if s == [] then 0 else if s[0] == c then 0 else
      var i := 1 + IndexOf(s[1..], c);
      assert s[..i] == [s[0]] + s[1..][..i - 1];
      i
  }

  lemma {:induction false} IndexOfConcat(a: Text, b: Text, c: byte)
    requires c !in a && (b == [] || b[0] == c)
    ensures IndexOf(a + b, c) == |a|
  {
    if a == [] {
      assert a + b == b;
    } else {
      IndexOfConcat(a[1..], b, c);
      assert (a + b)[1..] == a[1..] + b;
    }
  }

  datatype Pair = Pair(key: Text, value: Text)

  /** A form component: pluses are spaces, escapes are bytes, ill-formed text is replaced. */
  function FormDecode(s: Text): (t: Text) {
    Utf8.Lossy(Decode(PlusToSpace(s)))
  }

  function ParsePair(s: Text): Pair {
    var i := IndexOf(s, EQUALS);
    Pair(FormDecode(s[..i]), FormDecode(if i < |s| then s[i + 1..] else []))
  }

  /** The pairs of a query, in order; empty segments are skipped. */
  function FormParse(s: Text): seq<Pair>
    decreases |s|
  {
    if s == [] then []
    else
      var i := IndexOf(s, AMPERSAND);
      var rest := if i < |s| then FormParse(s[i + 1..]) else [];
      if i == 0 then rest else [ParsePair(s[..i])] + rest
  }

  function FormPair(p: Pair): Text {
    Encode(Form, p.key) + [EQUALS] + Encode(Form, p.value)
  }

  /** `append_pair`. */
  function AppendPair(out: Text, p: Pair): Text {
    if out == [] then FormPair(p) else out + [AMPERSAND] + FormPair(p)
  }

  predicate ValidPair(p: Pair) {
    Utf8.Valid(p.key) && Utf8.Valid(p.value)
  }

  lemma {:induction false} FormDecodeEncode(s: Text)
    requires Utf8.Valid(s)
    ensures FormDecode(Encode(Form, s)) == s
  {
    FormDecodes(s);
    Utf8.LossyOfValid(s);
  }

  lemma {:induction false} FormPairParses(p: Pair)
    requires ValidPair(p)
    ensures FormParse(FormPair(p)) == [p]
  {
    var k, v := Encode(Form, p.key), Encode(Form, p.value);
    var s := FormPair(p);
    EncodedAlphabet(Form, p.key);
    EncodedAlphabet(Form, p.value);
    assert AMPERSAND !in s;
    assert IndexOf(s, AMPERSAND) == |s| && s[..|s|] == s;
    assert s == k + ([EQUALS] + v);
    IndexOfConcat(k, [EQUALS] + v, EQUALS);
    assert s[..|k|] == k && s[|k| + 1..] == v;
    FormDecodeEncode(p.key);
    FormDecodeEncode(p.value);
  }

  /** The pairs of one segment. */
  function Segment(a: Text): seq<Pair> {
    if a == [] then [] else [ParsePair(a)]
  }

  lemma {:induction false} FormParseHead(a: Text, t: Text)
    requires AMPERSAND !in a
    ensures FormParse(a + [AMPERSAND] + t) == Segment(a) + FormParse(t)
    ensures FormParse(a) == Segment(a)
  {
    var s := a + [AMPERSAND] + t;
    assert s == a + ([AMPERSAND] + t);
    IndexOfConcat(a, [AMPERSAND] + t, AMPERSAND);
    assert s[..|a|] == a && s[|a| + 1..] == t && a[..|a|] == a;
  }

  /** Parsing splits at every ampersand. */
  lemma {:induction false} FormParseConcat(a: Text, b: Text)
    ensures FormParse(a + [AMPERSAND] + b) == FormParse(a) + FormParse(b)
    decreases |a|
  {
    var i := IndexOf(a, AMPERSAND);
    if i == |a| {
      FormParseHead(a, b);
    } else {
      var head, tail := a[..i], a[i + 1..];
      assert a == head + [AMPERSAND] + tail;
      FormParseHead(head, tail);
      FormParseHead(head, tail + [AMPERSAND] + b);
      Associate(head + [AMPERSAND], tail + [AMPERSAND], b);
      Associate(head + [AMPERSAND], tail, [AMPERSAND]);
      FormParseConcat(tail, b);
      Associate(Segment(head), FormParse(tail), FormParse(b));
    }
  }

  /** Appending a pair to any query appends it to what the query parses to. */
  lemma {:induction false} AppendedPairParses(out: Text, p: Pair)
    requires ValidPair(p)
    ensures FormParse(AppendPair(out, p)) == FormParse(out) + [p]
  {
    FormPairParses(p);
    if out == [] {
      assert [] + [p] == [p];
    } else {
      FormParseConcat(out, FormPair(p));
    }
  }

  /** A serializer fed these pairs in order. */
  function Serialize(pairs: seq<Pair>): Text {
    if pairs == [] then [] else AppendPair(Serialize(pairs[..|pairs| - 1]), pairs[|pairs| - 1])
  }

  /** Every list of text pairs is read back as it was written. */
  lemma {:induction false} SerializedParses(pairs: seq<Pair>)
    requires forall i :: 0 <= i < |pairs| ==> ValidPair(pairs[i])
    ensures FormParse(Serialize(pairs)) == pairs
  {
    if pairs != [] {
      var init, last := pairs[..|pairs| - 1], pairs[|pairs| - 1];
      SerializedParses(init);
      AppendedPairParses(Serialize(init), last);
      assert pairs == init + [last];
    }
  }

  lemma {:induction false} SerializeAppend(pairs: seq<Pair>, p: Pair)
    ensures Serialize(pairs + [p]) == AppendPair(Serialize(pairs), p)
  {
    assert (pairs + [p])[..|pairs|] == pairs;
  }

  /** The first value of a key. */
  function Get(pairs: seq<Pair>, key: Text): Option<Text> {
    if pairs == [] then None
    else if pairs[0].key == key then Some(pairs[0].value)
    else Get(pairs[1..], key)
  }

  lemma {:induction false} GetAppend(pairs: seq<Pair>, p: Pair, key: Text)
    ensures Get(pairs + [p], key) ==
            if Get(pairs, key).Some? then Get(pairs, key) else if p.key == key then Some(p.value) else None
  {
    if pairs == [] {
      assert pairs + [p] == [p];
      assert Get([p][1..], key) == None;
    } else {
      GetAppend(pairs[1..], p, key);
      assert (pairs + [p])[1..] == pairs[1..] + [p];
    }
  }

  lemma {:induction false} ParsedPairIsText(s: Text)
    ensures ValidPair(ParsePair(s))
  {
    var i := IndexOf(s, EQUALS);
    Utf8.LossyIsValid(Decode(PlusToSpace(s[..i])));
    Utf8.LossyIsValid(Decode(PlusToSpace(if i < |s| then s[i + 1..] else [])));
  }

  predicate YieldsText(pairs: seq<Pair>, key: Text) {
    Get(pairs, key).Some? ==> Utf8.Valid(Get(pairs, key).value)
  }

  lemma {:induction false} SegmentYieldsText(a: Text, rest: seq<Pair>, key: Text)
    requires YieldsText(rest, key)
    ensures YieldsText(Segment(a) + rest, key)
  {
    if a == [] {
      assert Segment(a) + rest == rest;
    } else {
      ParsedPairIsText(a);
      assert (Segment(a) + rest)[1..] == rest;
    }
  }

  /** Whatever a query yields for a key is well-formed text. */
  lemma {:induction false} GetIsText(s: Text, key: Text)
    ensures YieldsText(FormParse(s), key)
    decreases |s|
  {
    var i := IndexOf(s, AMPERSAND);
    if i == |s| {
      FormParseHead(s, []);
      SegmentYieldsText(s, [], key);
      assert Segment(s) + [] == Segment(s);
    } else {
      var head, tail := s[..i], s[i + 1..];
      assert s == head + [AMPERSAND] + tail;
      FormParseHead(head, tail);
      GetIsText(tail, key);
      SegmentYieldsText(head, FormParse(tail), key);
    }
  }

  /** The map holds the first value of every key, and no other keys. */
  ghost predicate FirstWins(m: map<Text, Text>, pairs: seq<Pair>) {
    forall k :: Get(pairs, k) == if k in m then Some(m[k]) else None
  }

  function Inserted(m: map<Text, Text>, p: Pair): map<Text, Text> {
    if p.key in m then m else m[p.key := p.value]
  }

  lemma {:induction false} FirstWinsStep(m: map<Text, Text>, pairs: seq<Pair>, p: Pair)
    requires FirstWins(m, pairs)
    ensures FirstWins(Inserted(m, p), pairs + [p])
  {
    forall k: Text
      ensures Get(pairs + [p], k) ==
              if k in m then Some(m[k]) else if p.key == k then Some(p.value) else None
    {
      GetAppend(pairs, p, k);
      assert Get(pairs, k) == if k in m then Some(m[k]) else None;
    }
  }

  lemma {:induction false} FirstWinsNext(m: map<Text, Text>, pairs: seq<Pair>, i: nat)
    requires i < |pairs| && FirstWins(m, pairs[..i])
    ensures FirstWins(Inserted(m, pairs[i]), pairs[..i + 1])
  {
    FirstWinsStep(m, pairs[..i], pairs[i]);
    assert pairs[..i + 1] == pairs[..i] + [pairs[i]];
  }

  /** `parse_query`. */
  method ParseQuery(query: Text) returns (m: map<Text, Text>)
    ensures FirstWins(m, FormParse(query))
  {
    var pairs := FormParse(query);
    m := map[];
    for i := 0 to |pairs|
      invariant FirstWins(m, pairs[..i])
    {
      var p := pairs[i];
      FirstWinsNext(m, pairs, i);
      if p.key !in m {
        m := m[p.key := p.value];
      }
    }
    assert pairs[..|pairs|] == pairs;
  }

  // ----- what the formats mean, byte by byte -----

  /** b is one of the characters of the text. */
  predicate Among(b: byte, chars: string) {
    exists i :: 0 <= i < |chars| && b == chars[i] as int
  }

  const UPPER_HEX := "0123456789ABCDEF"
  const LOWER_HEX := "0123456789abcdef"

  /** h is a spelling, in either case, of the hexadecimal digit n. */
  predicate SpellsHex(h: byte, n: nat) {
    n < 16 && (h == UPPER_HEX[n] as int || h == LOWER_HEX[n] as int)
  }

  lemma {:induction false} HexDigits(h: byte, n: nat)
    requires n < 16
    ensures SpellsHex(h, n) <==> IsHex(h) && HexValue(h) == n
    ensures HexDigit(n) == UPPER_HEX[n] as int
  {
  }

  /** An escape, in either case, is its byte. */
  lemma {:induction false} EscapeDecodes(h: byte, l: byte, i: nat, j: nat, rest: Text)
    requires SpellsHex(h, i) && SpellsHex(l, j)
    ensures Decode([PERCENT, h, l] + rest) == [16 * i + j] + Decode(rest)
  {
    HexDigits(h, i);
    HexDigits(l, j);
    assert ([PERCENT, h, l] + rest)[3..] == rest;
  }

  lemma {:induction false} HexOrNot(h: byte)
    ensures IsHex(h) <==> exists n: nat :: SpellsHex(h, n)
  {
    if IsHex(h) {
      HexDigits(h, HexValue(h));
    }
    if n: nat :| SpellsHex(h, n) {
      HexDigits(h, n);
    }
  }

  /** Everything else is itself, a percent sign without two digits behind it included. */
  lemma {:induction false} OthersDecode(b: byte, rest: Text)
    requires b == PERCENT ==>
               |rest| < 2 || (forall n: nat :: !SpellsHex(rest[0], n)) || (forall n: nat :: !SpellsHex(rest[1], n))
    ensures Decode([b] + rest) == [b] + Decode(rest)
  {
    assert ([b] + rest)[1..] == rest;
    if |rest| >= 2 {
      HexOrNot(rest[0]);
      HexOrNot(rest[1]);
    }
  }

  predicate Between(b: byte, first: char, last: char) {
    first as int <= b <= last as int
  }

  /** The characters each encoder leaves alone; a fragment's are the printable ones but seven. */
  predicate LeftAlone(set_: EncodeSet, b: byte) {
    var letter := Between(b, 'A', 'Z') || Between(b, 'a', 'z') || Between(b, '0', '9');
    match set_
    case Userinfo => letter || Among(b, "-._~")
    case Form => letter || Among(b, "-._*")
    case Fragment => Between(b, '!', '~') && !Among(b, "\"<>`%#+")
  }

  lemma {:induction false} Marks(b: byte)
    ensures (b == 45 || b == 46 || b == 95 || b == 126) <==> Among(b, "-._~")
    ensures (b == 42 || b == 45 || b == 46 || b == 95) <==> Among(b, "-._*")
  {
    var m, f := "-._~", "-._*";
    assert m[0] as int == 45 && m[1] as int == 46 && m[2] as int == 95 && m[3] as int == 126;
    assert f[0] as int == 45 && f[1] as int == 46 && f[2] as int == 95 && f[3] as int == 42;
  }

  lemma {:induction false} FragmentMarks(b: byte)
    ensures b in [34, 60, 62, 96, 37, 35, 43] <==> Among(b, "\"<>`%#+")
  {
    var m := "\"<>`%#+";
    assert m[0] as int == 34 && m[1] as int == 60 && m[2] as int == 62 && m[3] as int == 96;
    assert m[4] as int == 37 && m[5] as int == 35 && m[6] as int == 43;
  }

  /** Encoders leave those alone and write the rest as upper-case escapes, a form's space as a plus. */
  lemma {:induction false} EncodesAs(set_: EncodeSet, b: byte, rest: Text)
    ensures Encode(set_, [b] + rest) ==
            (if LeftAlone(set_, b) then [b]
             else if set_.Form? && b == SPACE then [PLUS]
             else [PERCENT, UPPER_HEX[b / 16] as int, UPPER_HEX[b % 16] as int]) + Encode(set_, rest)
  {
    assert ([b] + rest)[1..] == rest;
    Marks(b);
    FragmentMarks(b);
    HexDigits(HexDigit(b / 16), b / 16);
    HexDigits(HexDigit(b % 16), b % 16);
  }

  lemma {:induction false} AsciiLossy(b: byte, rest: Text)
    requires b < 0x80
    ensures Utf8.Lossy([b] + rest) == [b] + Utf8.Lossy(rest)
  {
    assert ([b] + rest)[..1] == [b] && ([b] + rest)[1..] == rest;
  }

  /** In a form a plus is a space, and an escaped plus is a plus. */
  lemma {:induction false} FormPlus(rest: Text)
    ensures FormDecode([PLUS] + rest) == [SPACE] + FormDecode(rest)
    ensures FormDecode(Literal("%2B") + rest) == [PLUS] + FormDecode(rest)
  {
    var tail := PlusToSpace(rest);
    PlusConcat([PLUS], rest);
    assert PlusToSpace([PLUS]) == [SPACE] && ([SPACE] + tail)[1..] == tail;
    AsciiLossy(SPACE, Decode(tail));
    var e := Literal("%2B");
    PlusConcat(e, rest);
    assert PlusToSpace(e) == e == [PERCENT, 50, 66];
    EscapeDecodes(50, 66, 2, 11, tail);
    AsciiLossy(PLUS, Decode(tail));
  }

  /** A segment's key ends at its first equals sign; without one the value is empty. */
  lemma {:induction false} SegmentMeans(k: Text, v: Text)
    requires EQUALS !in k
    ensures ParsePair(k + [EQUALS] + v) == Pair(FormDecode(k), FormDecode(v))
    ensures ParsePair(k) == Pair(FormDecode(k), [])
  {
    var s := k + [EQUALS] + v;
    assert s == k + ([EQUALS] + v);
    IndexOfConcat(k, [EQUALS] + v, EQUALS);
    assert s[..|k|] == k && s[|k| + 1..] == v && k[..|k|] == k;
  }

  /** The value of a key is that of its first pair. */
  lemma {:induction false} GetFirst(before: seq<Pair>, p: Pair, after: seq<Pair>)
    requires forall i :: 0 <= i < |before| ==> before[i].key != p.key
    ensures Get(before + [p] + after, p.key) == Some(p.value) && Get(before, p.key) == None
  {
    var all := before + [p] + after;
    if before != [] {
      GetFirst(before[1..], p, after);
      assert all[1..] == before[1..] + [p] + after;
    }
  }
}
