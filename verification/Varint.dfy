/**
  QUIC variable-length integers (section 16 of RFC 9000): the two top bits of the first byte
  give the width, the remaining bits are the value, most significant byte first.
 */
module Varint {
  import opened Bytes

  const MAX_VAR_INT1: nat := 63
  const MAX_VAR_INT2: nat := 16383
  const MAX_VAR_INT4: nat := 1_073_741_823
  const MAX_VAR_INT8: nat := 4_611_686_018_427_387_903

  /** Bytes an encoding of i takes; the source reports the widest form for values that do not fit. */
  function Len(i: nat): nat {
    if i <= MAX_VAR_INT1 then 1
    else if i <= MAX_VAR_INT2 then 2
    else if i <= MAX_VAR_INT4 then 4
    else 8
  }

  /** Values a w-byte encoding can hold are those below Capacity(w), that is 2^(8w-2). */
  function Capacity(w: nat): nat
    requires w > 0
  {
    64 * Pow256(w - 1)
  }

  predicate IsWidth(w: nat) { w == 1 || w == 2 || w == 4 || w == 8 }

  /** The width tag stored in the top two bits. */
  function Tag(w: nat): nat
    requires IsWidth(w)
  {
    if w == 1 then 0 else if w == 2 then 1 else if w == 4 then 2 else 3
  }

  /** The width announced by a first byte. */
  function Width(first: byte): (w: nat)
    ensures IsWidth(w) && Tag(w) == first / 64
  {
    if first < 64 then 1 else if first < 128 then 2 else if first < 192 then 4 else 8
  }

  lemma {:induction false} Capacities()
    ensures Capacity(1) == 64 && Capacity(2) == 16384
    ensures Capacity(4) == 1_073_741_824 && Capacity(8) == 4_611_686_018_427_387_904
  {
    assert Pow256(2) == 256 * 256;
    assert Pow256(4) == 256 * 256 * Pow256(2);
    assert Pow256(6) == 256 * 256 * Pow256(4);
  }

  /** The reference encoding: the big-endian digits of i with the tag added to the first. */
  function Encode(i: nat): (s: seq<byte>)
    requires i <= MAX_VAR_INT8
    ensures |s| == Len(i) && Width(s[0]) == Len(i)
  {
    Capacities();
    LeadingDigit(i, Len(i), 64);
    var digits := BigEndian(i, Len(i));
    [digits[0] + 64 * Tag(Len(i))] + digits[1..]
  }

  /** The value of a w-byte encoding, tag removed. */
  function Payload(s: seq<byte>): nat
    requires s != []
  {
    Value([s[0] % 64] + s[1..])
  }

  datatype Decoded = Eof | Decoded(value: nat, used: nat)

  /** The reference decoder over the front of s. */
  function Decode(s: seq<byte>): (r: Decoded)
  {
    if s == [] || |s| < Width(s[0]) then Eof
    else Decoded(Payload(s[..Width(s[0])]), Width(s[0]))
  }

  /** `len` is the least legal width whose capacity admits the value. */
  lemma {:induction false} LenIsLeast(i: nat)
    requires i <= MAX_VAR_INT8
    ensures IsWidth(Len(i)) && i < Capacity(Len(i))
    ensures forall w: nat :: IsWidth(w) && i < Capacity(w) ==> Len(i) <= w
  {
    Capacities();
  }

  /** Reading what was written gives the value back and stops right after it, whatever follows. */
  lemma {:induction false} RoundTrip(i: nat, rest: seq<byte>)
    requires i <= MAX_VAR_INT8
    ensures Decode(Encode(i) + rest) == Decoded(i, Len(i))
  {
    var w := Len(i);
    var s := Encode(i);
    Capacities();
    LeadingDigit(i, w, 64);
    assert (s + rest)[..w] == s;
    assert [s[0] % 64] + s[1..] == BigEndian(i, w);
    assert Capacity(w) <= Pow256(w) by { assert Pow256(w) == 256 * Pow256(w - 1); }
    ValueOfBigEndian(i, w);
  }

  /** No encoding is a proper prefix of another, so concatenated encodings parse uniquely. */
  lemma {:induction false} PrefixFree(i: nat, j: nat, restI: seq<byte>, restJ: seq<byte>)
    requires i <= MAX_VAR_INT8 && j <= MAX_VAR_INT8
    requires Encode(i) + restI == Encode(j) + restJ
    ensures i == j && restI == restJ
  {
    RoundTrip(i, restI);
    RoundTrip(j, restJ);
    assert restI == (Encode(i) + restI)[Len(i)..];
    assert restJ == (Encode(j) + restJ)[Len(j)..];
  }

  /** Whatever is read fits 62 bits, needs at most the bytes it used, and is canonical when it used the fewest. */
  lemma {:induction false} DecodeSound(s: seq<byte>)
    requires Decode(s).Decoded?
    ensures var Decoded(v, n) := Decode(s);
            && v <= MAX_VAR_INT8 && Len(v) <= n <= |s|
            && (s[..n] == Encode(v) <==> n == Len(v))
  {
    var Decoded(v, n) := Decode(s);
    var t := s[..n];
    var digits := [t[0] % 64] + t[1..];
    LeadingDigitBound(digits, 64);
    Capacities();
    BigEndianOfValue(digits);
    if n == Len(v) {
      assert t[0] == digits[0] + 64 * Tag(n);
      assert t == Encode(v);
    }
  }

  /** Extending the input never changes a value that was already readable. */
  lemma {:induction false} DecodeExtends(s: seq<byte>, t: seq<byte>)
    ensures Decode(s).Decoded? ==> Decode(s + t) == Decode(s)
  {
    if Decode(s).Decoded? {
      assert (s + t)[..Width(s[0])] == s[..Width(s[0])];
    }
  }

  /** A number written in w bytes, whether or not fewer would do: two bits of width, then the digits. */
  function Spelled(v: nat, w: nat): (s: seq<byte>)
    requires IsWidth(w) && v < Capacity(w)
    ensures |s| == w
  {
    LeadingDigit(v, w, 64);
    var digits := BigEndian(v, w);
    [digits[0] + (if w == 1 then 0 else if w == 2 then 64 else if w == 4 then 128 else 192)] + digits[1..]
  }

  lemma {:induction false} SpelledDecodes(v: nat, w: nat, rest: seq<byte>)
    requires IsWidth(w) && v < Capacity(w)
    ensures Decode(Spelled(v, w) + rest) == Decoded(v, w)
  {
    var s := Spelled(v, w);
    LeadingDigit(v, w, 64);
    assert (s + rest)[..w] == s;
    assert Width(s[0]) == w;
    assert [s[0] % 64] + s[1..] == BigEndian(v, w);
    assert Capacity(w) <= Pow256(w) by { assert Pow256(w) == 256 * Pow256(w - 1); }
    ValueOfBigEndian(v, w);
  }

  lemma {:induction false} DecodedIsSpelled(s: seq<byte>)
    requires Decode(s).Decoded?
    ensures var Decoded(v, n) := Decode(s);
            IsWidth(n) && n <= |s| && v < Capacity(n) && s[..n] == Spelled(v, n)
  {
    var Decoded(v, n) := Decode(s);
    var t := s[..n];
    var digits := [t[0] % 64] + t[1..];
    LeadingDigitBound(digits, 64);
    BigEndianOfValue(digits);
  }

  /** The decoder reads exactly such spellings, and asks for more bytes on everything else. */
  lemma {:induction false} DecodeIff(s: seq<byte>, v: nat, n: nat)
    ensures Decode(s) == Decoded(v, n) <==>
            IsWidth(n) && v < Capacity(n) && n <= |s| && s[..n] == Spelled(v, n)
  {
    if Decode(s) == Decoded(v, n) {
      DecodedIsSpelled(s);
    }
    if IsWidth(n) && v < Capacity(n) && n <= |s| && s[..n] == Spelled(v, n) {
      SpelledDecodes(v, n, s[n..]);
      assert s == s[..n] + s[n..];
    }
  }

  lemma {:induction false} EncodeIsSpelled(i: nat)
    requires i <= MAX_VAR_INT8
    ensures IsWidth(Len(i)) && i < Capacity(Len(i)) && Encode(i) == Spelled(i, Len(i))
  {
    Capacities();
  }

  /** The low n + 2 digits are the low n digits of x / 65536 and the last two. */
  lemma {:induction false} TwoMoreDigits(x: nat, n: nat)
    ensures BigEndian(x, n + 2) == BigEndian(x / 0x1_0000, n) + [x / 0x100 % 256, x % 256]
  {
    assert BigEndian(x, n + 2) == BigEndian(x / 256 / 256, n) + [x / 256 % 256] + [x % 256];
    assert x / 256 / 256 == x / 0x1_0000;
  }

  lemma {:induction false} FourDigits(x: nat)
    ensures BigEndian(x, 4) == [x / 0x100_0000 % 256, x / 0x1_0000 % 256, x / 0x100 % 256, x % 256]
  {
    TwoMoreDigits(x, 2);
    TwoMoreDigits(x / 0x1_0000, 0);
  }

  lemma {:induction false} HighWord(x: nat)
    ensures BigEndian(x, 8) == BigEndian(x / 0x1_0000_0000, 4) + BigEndian(x, 4)
  {
    TwoMoreDigits(x, 6);
    TwoMoreDigits(x / 0x1_0000, 4);
    TwoMoreDigits(x, 2);
    TwoMoreDigits(x / 0x1_0000, 0);
    assert x / 0x1_0000 / 0x1_0000 == x / 0x1_0000_0000;
  }

  lemma {:induction false} HighShifts(x: nat)
    ensures x / 0x1_0000_0000 / 0x100 == x / 0x100_0000_0000
    ensures x / 0x1_0000_0000 / 0x1_0000 == x / 0x1_0000_0000_0000
    ensures x / 0x1_0000_0000 / 0x100_0000 == x / 0x100_0000_0000_0000
  {
  }

  /** The eight shifted bytes that `put` writes for the widest form. */
  function ShiftedBytes(x: nat): seq<byte> {
    [x / 0x100_0000_0000_0000 % 256, x / 0x1_0000_0000_0000 % 256,
     x / 0x100_0000_0000 % 256, x / 0x1_0000_0000 % 256,
     x / 0x100_0000 % 256, x / 0x1_0000 % 256, x / 0x100 % 256, x % 256]
  }

  lemma {:induction false} EightDigits(x: nat)
    ensures BigEndian(x, 8) == ShiftedBytes(x)
  {
    HighWord(x);
    HighShifts(x);
    FourDigits(x);
    FourDigits(x / 0x1_0000_0000);
  }

  /**
    Write the encoding of i at position at, shift by shift. The tag is or-ed into bits that the
    range check left clear, so it is an addition.
   */
  method Put(b: array<byte>, at: nat, i: nat) returns (n: nat)
    requires i <= MAX_VAR_INT8
    requires at + Len(i) <= b.Length
    modifies b
    ensures n == Len(i)
    ensures b[..] == Splice(old(b[..]), at, Encode(i))
  {
    n := Len(i);
    if i <= MAX_VAR_INT1 {
      b[at] := i;
      assert BigEndian(i, 1) == [i];
      assert Encode(i) == [i];
    } else if i <= MAX_VAR_INT2 {
      NarrowForm(i);
      b[at], b[at + 1] := i / 0x100 + 0x40, i % 256;
    } else if i <= MAX_VAR_INT4 {
      MiddleForm(i);
      b[at], b[at + 1], b[at + 2], b[at + 3] :=
        i / 0x100_0000 + 0x80, i / 0x1_0000 % 256, i / 0x100 % 256, i % 256;
    } else {
      PutWidest(b, at, i);
    }
  }

  lemma {:induction false} NarrowForm(i: nat)
    requires MAX_VAR_INT1 < i <= MAX_VAR_INT2
    ensures Encode(i) == [i / 0x100 + 0x40, i % 256]
  {
    TwoMoreDigits(i, 0);
  }

  lemma {:induction false} MiddleForm(i: nat)
    requires MAX_VAR_INT2 < i <= MAX_VAR_INT4
    ensures Encode(i) == [i / 0x100_0000 + 0x80, i / 0x1_0000 % 256, i / 0x100 % 256, i % 256]
  {
    FourDigits(i);
  }

  lemma {:induction false} WideForm(i: nat)
    requires MAX_VAR_INT4 < i <= MAX_VAR_INT8
    ensures ShiftedBytes(i)[0] < 64
    ensures Encode(i) == [ShiftedBytes(i)[0] + 0xc0] + ShiftedBytes(i)[1..]
  {
    EightDigits(i);
    Capacities();
    LeadingDigit(i, 8, 64);
  }

  method PutFour(b: array<byte>, at: nat, w: seq<byte>)
    requires |w| == 4 && at + 4 <= b.Length
    modifies b
    ensures b[..] == Splice(old(b[..]), at, w)
  {
    b[at], b[at + 1], b[at + 2], b[at + 3] := w[0], w[1], w[2], w[3];
  }

  method PutWidest(b: array<byte>, at: nat, i: nat)
    requires MAX_VAR_INT4 < i <= MAX_VAR_INT8
    requires at + 8 <= b.Length
    modifies b
    ensures b[..] == Splice(old(b[..]), at, Encode(i))
  {
    WideForm(i);
    var d := ShiftedBytes(i);
    var high, low := [d[0] + 0xc0, d[1], d[2], d[3]], d[4..];
    PutFour(b, at, high);
    PutFour(b, at + 4, low);
    SpliceAgain(old(b[..]), at, high, low);
    assert high + low == Encode(i);
  }

  /** Read a varint byte by byte, as the cursor loop does; Eof when the input runs out. */
  method Read(s: seq<byte>) returns (r: Decoded)
    ensures r == Decode(s)
  {
    if |s| == 0 {
      return Eof;
    }
    var first := s[0];
    var length := Width(first);
    var value: nat := first % 64;
    ghost var head := [first % 64];
    assert head + s[1..1] == head && Value(head) == value;
    var i := 1;
    while i < length
      invariant 1 <= i <= length && i <= |s|
      invariant value == Value(head + s[1..i])
    {
      if i >= |s| {
        return Eof;
      }
      ghost var before := head + s[1..i];
      assert head + s[1..i + 1] == before + [s[i]];
      assert (before + [s[i]])[..|before|] == before;
      value := value * 256 + s[i];
      i := i + 1;
    }
    assert s[..length][1..] == s[1..length];
    r := Decoded(value, length);
  }
}
