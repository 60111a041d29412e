/**
  UTF-8 and white space against the code points themselves: the byte-level decoder accepts exactly the
  encodings of scalar values (section 3 of RFC 3629), replaces exactly the maximal ill-formed subparts,
  and trims exactly the characters with the White_Space property.
 */
module Unicode {
  import opened Bytes
  import opened Utf8

  predicate Scalar(c: int) {
    0 <= c < 0xD800 || 0xE000 <= c < 0x11_0000
  }

  /** The encoding of one scalar value. */
  function ScalarBytes(c: int): (s: seq<byte>)
    requires Scalar(c)
    ensures 1 <= |s| <= 4
  {
    if c < 0x80 then [c]
    else if c < 0x800 then [0xC0 + c / 64, 0x80 + c % 64]
    else if c < 0x1_0000 then [0xE0 + c / 4096, 0x80 + c / 64 % 64, 0x80 + c % 64]
    else [0xF0 + c / 262144, 0x80 + c / 4096 % 64, 0x80 + c / 64 % 64, 0x80 + c % 64]
  }

  predicate Scalars(cs: seq<int>) {
    forall i :: 0 <= i < |cs| ==> Scalar(cs[i])
  }

  function Encoded(cs: seq<int>): seq<byte>
    requires Scalars(cs)
  {
    if cs == [] then [] else ScalarBytes(cs[0]) + Encoded(cs[1..])
  }

  lemma {:induction false} FrontOfScalar(c: int)
    requires Scalar(c)
    ensures Front(ScalarBytes(c)) == Chunk(|ScalarBytes(c)|, true)
  {
    if 0x800 <= c < 0x1_0000 {
      ThirdWidth(c);
    } else if 0x1_0000 <= c {
      FourthWidth(c);
    }
  }

  lemma {:induction false} ThirdWidth(c: int)
    requires Scalar(c) && 0x800 <= c < 0x1_0000
    ensures var s := ScalarBytes(c); 0xE0 <= s[0] < 0xF0 && SecondOk(s[0], s[1]) && Continuation(s[2])
  {
  }

  lemma {:induction false} FourthWidth(c: int)
    requires Scalar(c) && 0x1_0000 <= c
    ensures var s := ScalarBytes(c);
            0xF0 <= s[0] <= 0xF4 && SecondOk(s[0], s[1]) && Continuation(s[2]) && Continuation(s[3])
  {
  }

  /** The code point with these payload bits, six per trailing byte. */
  function Two(a: int, b: int): int { (a - 0xC0) * 64 + (b - 0x80) }

  function Three(a: int, b: int, c: int): int { (a - 0xE0) * 4096 + (b - 0x80) * 64 + (c - 0x80) }

  function Four(a: int, b: int, c: int, d: int): int {
    (a - 0xF0) * 262144 + (b - 0x80) * 4096 + (c - 0x80) * 64 + (d - 0x80)
  }

  lemma {:induction false} TwoBytes(a: byte, b: byte)
    requires 0xC2 <= a < 0xE0 && Continuation(b)
    ensures Scalar(Two(a, b)) && ScalarBytes(Two(a, b)) == [a, b]
  {
  }

  lemma {:induction false} ThreeBytes(a: byte, b: byte, c: byte)
    requires 0xE0 <= a < 0xF0 && SecondOk(a, b) && Continuation(c)
    ensures Scalar(Three(a, b, c)) && ScalarBytes(Three(a, b, c)) == [a, b, c]
  {
    var x, high: int := Three(a, b, c), (a - 0xE0) * 64 + (b - 0x80);
    assert x == high * 64 + (c - 0x80);
    assert x / 64 == high && x % 64 == c - 0x80;
    assert x / 4096 == high / 64;
    assert high / 64 == a - 0xE0 && high % 64 == b - 0x80;
  }

  lemma {:induction false} FourBytes(a: byte, b: byte, c: byte, d: byte)
    requires 0xF0 <= a <= 0xF4 && SecondOk(a, b) && Continuation(c) && Continuation(d)
    ensures Scalar(Four(a, b, c, d)) && ScalarBytes(Four(a, b, c, d)) == [a, b, c, d]
  {
    var x := Four(a, b, c, d);
    assert x / 64 == (a - 0xF0) * 4096 + (b - 0x80) * 64 + (c - 0x80);
    assert x / 4096 == (a - 0xF0) * 64 + (b - 0x80);
  }

  /** A well-formed front is some character's encoding. */
  lemma {:induction false} ScalarOfFront(s: seq<byte>) returns (c: int)
    requires s != [] && Front(s).wellFormed
    ensures Scalar(c) && ScalarBytes(c) == s[..Front(s).len]
  {
    var n := Front(s).len;
    if n == 1 {
      c := s[0];
    } else if n == 2 {
      c := Two(s[0], s[1]);
      TwoBytes(s[0], s[1]);
    } else if n == 3 {
      c := Three(s[0], s[1], s[2]);
      ThreeBytes(s[0], s[1], s[2]);
    } else {
      c := Four(s[0], s[1], s[2], s[3]);
      FourBytes(s[0], s[1], s[2], s[3]);
    }
  }

  lemma {:induction false} EncodedValid(cs: seq<int>)
    requires Scalars(cs)
    ensures Valid(Encoded(cs))
  {
    if cs != [] {
      var head := ScalarBytes(cs[0]);
      FrontOfScalar(cs[0]);
      assert head[|head|..] == [] && Valid(head);
      EncodedValid(cs[1..]);
      ValidConcat(head, Encoded(cs[1..]));
    }
  }

  lemma {:induction false} ScalarsOfValid(s: seq<byte>) returns (cs: seq<int>)
    requires Valid(s)
    ensures Scalars(cs) && Encoded(cs) == s
  {
    if s == [] {
      cs := [];
    } else {
      var n := Front(s).len;
      var c := ScalarOfFront(s);
      var rest := ScalarsOfValid(s[n..]);
      EncodedCons(c, rest);
      cs := [c] + rest;
      assert s == s[..n] + s[n..];
    }
  }

  lemma {:induction false} EncodedCons(c: int, cs: seq<int>)
    requires Scalar(c) && Scalars(cs)
    ensures Scalars([c] + cs) && Encoded([c] + cs) == ScalarBytes(c) + Encoded(cs)
  {
    assert ([c] + cs)[1..] == cs;
  }

  /** Bytes are text exactly when they are the encodings of scalar values, one after the other. */
  lemma {:induction false} ValidIff(s: seq<byte>)
    ensures Valid(s) <==> exists cs: seq<int> :: Scalars(cs) && Encoded(cs) == s
  {
    if Valid(s) {
      var cs := ScalarsOfValid(s);
    }
    if cs: seq<int> :| Scalars(cs) && Encoded(cs) == s {
      EncodedValid(cs);
    }
  }

  // ----- replacement -----

  /** The bytes begin some character's encoding. */
  ghost predicate Begins(s: seq<byte>) {
    exists c: int :: Scalar(c) && s <= ScalarBytes(c)
  }

  /** The longest front that begins a character, or one byte when none does. */
  ghost predicate MaximalSubpart(s: seq<byte>, n: nat) {
    && 1 <= n <= |s| && (n == 1 || Begins(s[..n]))
    && (n < |s| ==> !Begins(s[..n + 1]))
  }

  lemma {:induction false} NoLongerFront(s: seq<byte>, c: int)
    requires s != [] && !Front(s).wellFormed && Front(s).len < |s| && Scalar(c)
    ensures !(s[..Front(s).len + 1] <= ScalarBytes(c))
  {
    var n, b := Front(s).len, ScalarBytes(c);
    if s[..n + 1] <= b {
      assert forall i: nat :: i <= n ==> b[i] == s[..n + 1][i] == s[i];
      FrontOfScalar(c);
    }
  }

  /** An incomplete front begins some character: fill up with the least continuation bytes. */
  lemma {:induction false} FrontBegins(s: seq<byte>)
    requires s != [] && !Front(s).wellFormed && Front(s).len > 1
    ensures Begins(s[..Front(s).len])
  {
    var n := Front(s).len;
    if n == 3 {
      FourBytes(s[0], s[1], s[2], 0x80);
      assert s[..n] <= ScalarBytes(Four(s[0], s[1], s[2], 0x80));
    } else if s[0] < 0xF0 {
      ThreeBytes(s[0], s[1], 0x80);
      assert s[..n] <= ScalarBytes(Three(s[0], s[1], 0x80));
    } else {
      FourBytes(s[0], s[1], 0x80, 0x80);
      assert s[..n] <= ScalarBytes(Four(s[0], s[1], 0x80, 0x80));
    }
  }

  /** Lossy decoding keeps every character. */
  lemma {:induction false} LossyKeeps(c: int, rest: seq<byte>)
    requires Scalar(c)
    ensures Lossy(ScalarBytes(c) + rest) == ScalarBytes(c) + Lossy(rest)
  {
    var b := ScalarBytes(c);
    FrontOfScalar(c);
    FrontExtends(b, rest);
    assert (b + rest)[..|b|] == b && (b + rest)[|b|..] == rest;
  }

  /** Where no character starts, it puts one replacement character for the maximal ill-formed subpart. */
  lemma {:induction false} LossyReplaces(s: seq<byte>) returns (n: nat)
    requires s != [] && forall c: int :: Scalar(c) ==> !(ScalarBytes(c) <= s)
    ensures MaximalSubpart(s, n) && Lossy(s) == [0xEF, 0xBF, 0xBD] + Lossy(s[n..])
  {
    n := Front(s).len;
    if Front(s).wellFormed {
      var c := ScalarOfFront(s);
    }
    if n > 1 {
      FrontBegins(s);
    }
    if n < |s| {
      forall c: int | Scalar(c)
        ensures !(s[..n + 1] <= ScalarBytes(c))
      {
        NoLongerFront(s, c);
      }
    }
  }

  // ----- white space -----

  /** The characters with the White_Space property. */
  predicate WhiteSpaceScalar(c: int) {
    || 0x9 <= c <= 0xD || c == 0x20 || c == 0x85 || c == 0xA0 || c == 0x1680 || 0x2000 <= c <= 0x200A
    || c == 0x2028 || c == 0x2029 || c == 0x202F || c == 0x205F || c == 0x3000
  }

  lemma {:induction false} WhiteSpaceIff(c: int)
    requires Scalar(c)
    ensures WhiteSpace(ScalarBytes(c)) <==> WhiteSpaceScalar(c)
  {
  }

  predicate AllSpaces(ws: seq<seq<byte>>) {
    forall i :: 0 <= i < |ws| ==> WhiteSpace(ws[i])
  }

  function Flat(ws: seq<seq<byte>>): seq<byte> {
    if ws == [] then [] else ws[0] + Flat(ws[1..])
  }

  lemma {:induction false} FlatNext(ws: seq<seq<byte>>, w: seq<byte>)
    ensures Flat(ws + [w]) == Flat(ws) + w
  {
    if ws == [] {
      assert ws + [w] == [w] && Flat([w]) == w + Flat([]);
    } else {
      FlatNext(ws[1..], w);
      assert (ws + [w])[1..] == ws[1..] + [w];
    }
  }

  /** White space at the front is what the decoder sees there. */
  lemma {:induction false} SpaceInFront(s: seq<byte>, n: nat)
    requires n <= |s| && WhiteSpace(s[..n])
    ensures s != [] && Front(s) == Chunk(n, true)
  {
    assert forall i :: 0 <= i < n ==> s[..n][i] == s[i];
  }

  lemma {:induction false} StartsWithOne(w: seq<byte>, rest: seq<seq<byte>>, u: seq<byte>)
    returns (ws: seq<seq<byte>>)
    requires AllSpaces(rest) && WhiteSpace(w)
    ensures AllSpaces(ws) && Flat(ws) + u == w + (Flat(rest) + u)
  {
    ws := [w] + rest;
    assert ws[1..] == rest;
    Associate(w, Flat(rest), u);
  }

  lemma {:induction false} TrimStartCuts(s: seq<byte>) returns (ws: seq<seq<byte>>)
    ensures s == Flat(ws) + TrimStart(s) && AllSpaces(ws) && LeadingSpace(TrimStart(s)) == 0
  {
    var n := LeadingSpace(s);
    if n == 0 {
      ws := [];
    } else {
      var w, back := s[..n], s[n..];
      assert WhiteSpace(w) && s == w + back && TrimStart(s) == TrimStart(back);
      var rest := TrimStartCuts(back);
      ws := StartsWithOne(w, rest, TrimStart(back));
    }
  }

  lemma {:induction false} EndsWithOne(u: seq<byte>, rest: seq<seq<byte>>, w: seq<byte>) returns (ws: seq<seq<byte>>)
    requires AllSpaces(rest) && WhiteSpace(w)
    ensures AllSpaces(ws) && u + Flat(ws) == u + Flat(rest) + w
  {
    ws := rest + [w];
    FlatNext(rest, w);
    Associate(u, Flat(rest), w);
  }

  lemma {:induction false} TrimEndCuts(s: seq<byte>) returns (ws: seq<seq<byte>>)
    ensures s == TrimEnd(s) + Flat(ws) && AllSpaces(ws) && TrailingSpace(TrimEnd(s)) == 0
  {
    var n := TrailingSpace(s);
    if n == 0 {
      ws := [];
    } else {
      var front, w := s[..|s| - n], s[|s| - n..];
      assert WhiteSpace(w) && s == front + w && TrimEnd(s) == TrimEnd(front);
      var rest := TrimEndCuts(front);
      ws := EndsWithOne(TrimEnd(front), rest, w);
    }
  }

  /** No white space at either end. */
  predicate Trimmed(s: seq<byte>) {
    forall n: nat :: n <= |s| ==> !WhiteSpace(s[..n]) && !WhiteSpace(s[|s| - n..])
  }

  lemma {:induction false} NoSpaceAtEnd(s: seq<byte>, n: nat)
    requires TrailingSpace(s) == 0 && n <= |s|
    ensures !WhiteSpace(s[|s| - n..])
  {
    if WhiteSpace(s[|s| - n..]) {
      SpaceLength(s[|s| - n..]);
    }
  }

  lemma {:induction false} SpaceLength(w: seq<byte>)
    requires WhiteSpace(w)
    ensures 1 <= |w| <= 3
  {
  }

  /** Trimming takes white space off both ends, all of it, and nothing else. */
  lemma {:induction false} TrimMeans(s: seq<byte>) returns (a: seq<seq<byte>>, b: seq<seq<byte>>)
    ensures s == Flat(a) + Trim(s) + Flat(b) && AllSpaces(a) && AllSpaces(b) && Trimmed(Trim(s))
  {
    a := TrimStartCuts(s);
    var t := TrimStart(s);
    b := TrimEndCuts(t);
    var u := TrimEnd(t);
    Associate(Flat(a), u, Flat(b));
    assert u <= t;
    NoSpaceLeft(t, u);
  }

  lemma {:induction false} NoSpaceLeft(t: seq<byte>, u: seq<byte>)
    requires u <= t && LeadingSpace(t) == 0 && TrailingSpace(u) == 0
    ensures Trimmed(u)
  {
    forall n: nat | n <= |u|
      ensures !WhiteSpace(u[..n]) && !WhiteSpace(u[|u| - n..])
    {
      NoSpaceAtEnd(u, n);
      NoSpaceAtStart(t, n);
      assert t[..n] == u[..n];
    }
  }

  lemma {:induction false} NoSpaceAtStart(t: seq<byte>, n: nat)
    requires LeadingSpace(t) == 0 && n <= |t|
    ensures !WhiteSpace(t[..n])
  {
    if WhiteSpace(t[..n]) {
      SpaceInFront(t, n);
    }
  }

  /** White space alone is trimmed to nothing. */
  lemma {:induction false} BlankTrims(ws: seq<seq<byte>>)
    requires AllSpaces(ws)
    ensures Trim(Flat(ws)) == []
  {
    BlankStarts(ws);
  }

  lemma {:induction false} BlankStarts(ws: seq<seq<byte>>)
    requires AllSpaces(ws)
    ensures TrimStart(Flat(ws)) == []
  {
    if ws != [] {
      var w, rest := ws[0], Flat(ws[1..]);
      var s := w + rest;
      assert s[..|w|] == w && s[|w|..] == rest;
      SpaceInFront(s, |w|);
      BlankStarts(ws[1..]);
    }
  }

  /** Text without white space at its ends stays as it is. */
  lemma {:induction false} TrimKeeps(s: seq<byte>)
    requires Trimmed(s)
    ensures Trim(s) == s
  {
    var m, n := LeadingSpace(s), TrailingSpace(s);
    assert !WhiteSpace(s[..m]) && !WhiteSpace(s[|s| - m..]);
    assert !WhiteSpace(s[..n]) && !WhiteSpace(s[|s| - n..]);
    assert m == 0 && n == 0;
  }
}
