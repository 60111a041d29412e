/** The ASCII bytes that links, server addresses and port specs are split at. */
module Ascii {
  import opened Bytes

  const SPACE: byte := 32
  const HASH: byte := 35 // #
  const PERCENT: byte := 37 // %
  const AMPERSAND: byte := 38 // &
  const PLUS: byte := 43 // +
  const COMMA: byte := 44 // ,
  const DASH: byte := 45 // -
  const SLASH: byte := 47 // /
  const COLON: byte := 58 // :
  const EQUALS: byte := 61 // =
  const QUESTION: byte := 63 // ?
  const AT: byte := 64 // @
  const OPEN_BRACKET: byte := 91 // [
  const CLOSE_BRACKET: byte := 93 // ]

  /** The bytes of an ASCII text. */
  function Literal(s: string): (t: seq<byte>)
    requires forall i :: 0 <= i < |s| ==> s[i] as int < 0x80
    ensures |t| == |s| && forall i :: 0 <= i < |s| ==> t[i] == s[i] as int
  {
    seq(|s|, i requires 0 <= i < |s| => s[i] as int)
  }

  /** The delimiters are the characters they are named after. */
  lemma {:induction false} Delimiters()
    ensures Literal(" #%&+,-/:=?@[]") ==
            [SPACE, HASH, PERCENT, AMPERSAND, PLUS, COMMA, DASH, SLASH, COLON, EQUALS, QUESTION, AT,
             OPEN_BRACKET, CLOSE_BRACKET]
  {
    var s := " #%&+,-/:=?@[]";
    assert s[0] == ' ' && s[1] == '#' && s[2] == '%' && s[3] == '&' && s[4] == '+' && s[5] == ',' && s[6] == '-';
    assert s[7] == '/' && s[8] == ':' && s[9] == '=' && s[10] == '?' && s[11] == '@' && s[12] == '[' && s[13] == ']';
  }
}
