/**
  UTF-8 as the standard library sees it: well-formedness (table 3-7 of the Unicode Standard),
  lossy decoding with one replacement character per maximal ill-formed subpart, and trimming
  of Unicode white space. Text is kept as bytes throughout.
 */
module Utf8 {
  import opened Bytes

  predicate Continuation(b: byte) { 0x80 <= b < 0xC0 }

  /** The byte at i, or zero past the end. */
  function At(s: seq<byte>, i: nat): byte {
    if i < |s| then s[i] else 0
  }

  predicate SecondOk(lead: byte, second: byte) {
    if lead == 0xE0 then 0xA0 <= second <= 0xBF
    else if lead == 0xED then 0x80 <= second <= 0x9F
    else if lead == 0xF0 then 0x90 <= second <= 0xBF
    else if lead == 0xF4 then 0x80 <= second <= 0x8F
    else Continuation(second)
  }

  datatype Chunk = Chunk(len: nat, wellFormed: bool)

  /** What a decoder takes off the front: one scalar value, or one maximal ill-formed subpart. */
  function Front(s: seq<byte>): (c: Chunk)
    requires s != []
    ensures 1 <= c.len <= |s|
    ensures c.wellFormed ==> forall i :: 1 <= i < c.len ==> Continuation(s[i])
  {
    var b := s[0];
    if b < 0x80 then Chunk(1, true)
    else if b < 0xC2 || b > 0xF4 then Chunk(1, false)
    else if !SecondOk(b, At(s, 1)) then Chunk(1, false)
    else if b < 0xE0 then Chunk(2, true)
    else if !Continuation(At(s, 2)) then Chunk(2, false)
    else if b < 0xF0 then Chunk(3, true)
    else if !Continuation(At(s, 3)) then Chunk(3, false)
    else Chunk(4, true)
  }

  predicate Valid(s: seq<byte>) {
    s == [] || (Front(s).wellFormed && Valid(s[Front(s).len..]))
  }

  const REPLACEMENT: seq<byte> := [0xEF, 0xBF, 0xBD]

  function Lossy(s: seq<byte>): seq<byte> {
    if s == [] then []
    else
      var c := Front(s);
      (if c.wellFormed then s[..c.len] else REPLACEMENT) + Lossy(s[c.len..])
  }

  /** A complete scalar at the front stays what it is when bytes follow. */
  lemma {:induction false} FrontExtends(s: seq<byte>, t: seq<byte>)
    requires s != [] && Front(s).wellFormed
    ensures Front(s + t) == Front(s)
  {
    assert forall i: nat :: i < |s| ==> At(s + t, i) == At(s, i);
  }

  lemma {:induction false} ValidConcat(s: seq<byte>, t: seq<byte>)
    requires Valid(s) && Valid(t)
    ensures Valid(s + t)
  {
    if s == [] {
      assert s + t == t;
    } else {
      FrontExtends(s, t);
      var n := Front(s).len;
      ValidConcat(s[n..], t);
      assert (s + t)[n..] == s[n..] + t;
    }
  }

  /** A complete scalar that starts before t ends before t, unless t starts inside it. */
  lemma {:induction false} FrontShrinks(s: seq<byte>, t: seq<byte>)
    requires s != [] && Front(s + t).wellFormed && (t == [] || !Continuation(t[0]))
    ensures Front(s) == Front(s + t)
  {
    var n := Front(s + t).len;
    assert t != [] ==> (s + t)[|s|] == t[0];
    assert n <= |s|;
    assert forall i: nat :: i < n ==> At(s + t, i) == At(s, i);
  }

  /** Well-formed text cut before a byte that is not a continuation is cut at a scalar boundary. */
  lemma {:induction false} ValidSplit(s: seq<byte>, t: seq<byte>)
    requires Valid(s + t)
    requires t == [] || !Continuation(t[0])
    ensures Valid(s) && Valid(t)
  {
    if s == [] {
      assert s + t == t;
    } else {
      FrontShrinks(s, t);
      var n := Front(s).len;
      assert (s + t)[n..] == s[n..] + t;
      ValidSplit(s[n..], t);
    }
  }

  predicate Ascii(s: seq<byte>) {
    forall i :: 0 <= i < |s| ==> s[i] < 0x80
  }

  lemma {:induction false} AsciiValid(s: seq<byte>)
    requires Ascii(s)
    ensures Valid(s)
  {
    if s != [] {
      AsciiValid(s[1..]);
    }
  }

  /** Lossy decoding leaves well-formed text alone. */
  lemma {:induction false} LossyOfValid(s: seq<byte>)
    requires Valid(s)
    ensures Lossy(s) == s
  {
    if s != [] {
      LossyOfValid(s[Front(s).len..]);
    }
  }

  lemma {:induction false} OneScalarValid(s: seq<byte>)
    requires s != [] && Front(s).wellFormed
    ensures Valid(s[..Front(s).len])
  {
    var n := Front(s).len;
    var w := s[..n];
    assert forall i: nat :: i < n ==> At(w, i) == At(s, i);
    assert Front(w) == Front(s);
    assert w[n..] == [];
  }

  /** Lossy decoding always yields well-formed text. */
  lemma {:induction false} LossyIsValid(s: seq<byte>)
    ensures Valid(Lossy(s))
  {
    if s != [] {
      var c := Front(s);
      var head := if c.wellFormed then s[..c.len] else REPLACEMENT;
      assert Valid(head) by {
        if c.wellFormed {
          OneScalarValid(s);
        } else {
          assert Front(REPLACEMENT) == Chunk(3, true);
          assert REPLACEMENT[3..] == [];
        }
      }
      LossyIsValid(s[c.len..]);
      ValidConcat(head, Lossy(s[c.len..]));
    }
  }

  // ----- trimming -----

  /** One scalar with the Unicode White_Space property. */
  predicate WhiteSpace(w: seq<byte>) {
    || (|w| == 1 && (9 <= w[0] <= 13 || w[0] == 32))
    || (|w| == 2 && w[0] == 0xC2 && (w[1] == 0x85 || w[1] == 0xA0))
    || (|w| == 3 && w[0] == 0xE1 && w[1] == 0x9A && w[2] == 0x80)
    || (|w| == 3 && w[0] == 0xE2 && w[1] == 0x80
        && (0x80 <= w[2] <= 0x8A || w[2] == 0xA8 || w[2] == 0xA9 || w[2] == 0xAF))
    || (|w| == 3 && w[0] == 0xE2 && w[1] == 0x81 && w[2] == 0x9F)
    || (|w| == 3 && w[0] == 0xE3 && w[1] == 0x80 && w[2] == 0x80)
  }

  /** Length of the white-space scalar s starts with, or 0. */
  function LeadingSpace(s: seq<byte>): (n: nat)
    ensures n <= |s|
  {
    if s != [] && Front(s).wellFormed && WhiteSpace(s[..Front(s).len]) then Front(s).len else 0
  }

  /** Length of the white-space scalar s ends with, or 0. */
  function TrailingSpace(s: seq<byte>): (n: nat)
    ensures n <= |s|
    ensures n > 0 ==> WhiteSpace(s[|s| - n..])
  {
    if |s| >= 1 && WhiteSpace(s[|s| - 1..]) then 1
    else if |s| >= 2 && WhiteSpace(s[|s| - 2..]) then 2
    else if |s| >= 3 && WhiteSpace(s[|s| - 3..]) then 3
    else 0
  }

  function TrimStart(s: seq<byte>): seq<byte> {
    if LeadingSpace(s) == 0 then s else TrimStart(s[LeadingSpace(s)..])
  }

  function TrimEnd(s: seq<byte>): seq<byte> {
    if TrailingSpace(s) == 0 then s else TrimEnd(s[..|s| - TrailingSpace(s)])
  }

  function Trim(s: seq<byte>): seq<byte> {
    TrimEnd(TrimStart(s))
  }

  lemma {:induction false} TrimStartValid(s: seq<byte>)
    requires Valid(s)
    ensures Valid(TrimStart(s))
  {
    if LeadingSpace(s) != 0 {
      TrimStartValid(s[LeadingSpace(s)..]);
    }
  }

  lemma {:induction false} TrimEndValid(s: seq<byte>)
    requires Valid(s)
    ensures Valid(TrimEnd(s))
  {
    if TrailingSpace(s) != 0 {
      DropSpaceValid(s, TrailingSpace(s));
      TrimEndValid(s[..|s| - TrailingSpace(s)]);
    }
  }

  lemma {:induction false} DropSpaceValid(s: seq<byte>, n: nat)
    requires Valid(s) && n <= |s| && WhiteSpace(s[|s| - n..])
    ensures Valid(s[..|s| - n])
  {
    var front, back := s[..|s| - n], s[|s| - n..];
    assert s == front + back;
    SpaceStartsFresh(back);
    ValidSplit(front, back);
  }

  lemma {:induction false} SpaceStartsFresh(s: seq<byte>)
    requires WhiteSpace(s)
    ensures s != [] && !Continuation(s[0])
  {
  }

  /** Trimming text gives text. */
  lemma {:induction false} TrimValid(s: seq<byte>)
    requires Valid(s)
    ensures Valid(Trim(s))
  {
    TrimStartValid(s);
    TrimEndValid(TrimStart(s));
  }
}
