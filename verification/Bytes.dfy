/** Machine integers, options, and the big-endian numerals every wire format here is built from. */
module Bytes {

  type byte = x: int | 0 <= x < 0x100
  type u16 = x: int | 0 <= x < 0x1_0000
  type u32 = x: int | 0 <= x < 0x1_0000_0000

  datatype Option<+T> = None | Some(value: T)

  /** Concatenation is associative. */
  lemma {:induction false} Associate<T>(a: seq<T>, b: seq<T>, c: seq<T>)
    ensures a + (b + c) == a + b + c
  {
  }

  /** 256 to the power n. */
  function Pow256(n: nat): (p: nat)
    ensures p > 0
  {
    if n == 0 then 1 else 256 * Pow256(n - 1)
  }

  /** The low n base-256 digits of x, most significant first. */
  function BigEndian(x: nat, n: nat): (s: seq<byte>)
    ensures |s| == n
  {
    if n == 0 then [] else BigEndian(x / 256, n - 1) + [x % 256]
  }

  /** The number a digit string denotes. */
  function Value(s: seq<byte>): nat {
    if s == [] then 0 else Value(s[..|s| - 1]) * 256 + s[|s| - 1]
  }

  lemma {:induction false} ValueOfBigEndian(x: nat, n: nat)
    requires x < Pow256(n)
    ensures Value(BigEndian(x, n)) == x
  {
    if n > 0 {
      ValueOfBigEndian(x / 256, n - 1);
      assert BigEndian(x, n)[..n - 1] == BigEndian(x / 256, n - 1);
    }
  }

  lemma {:induction false} BigEndianOfValue(s: seq<byte>)
    ensures Value(s) < Pow256(|s|)
    ensures BigEndian(Value(s), |s|) == s
  {
    if s != [] {
      BigEndianOfValue(s[..|s| - 1]);
      assert Value(s) / 256 == Value(s[..|s| - 1]);
      assert s == s[..|s| - 1] + [s[|s| - 1]];
    }
  }

  /** A number below k * 256^(n-1) has a leading digit below k. */
  lemma {:induction false} LeadingDigit(x: nat, n: nat, k: nat)
    requires n > 0 && k <= 256 && x < k * Pow256(n - 1)
    ensures BigEndian(x, n)[0] < k
  {
    if n > 1 {
      assert k * Pow256(n - 1) == 256 * (k * Pow256(n - 2));
      LeadingDigit(x / 256, n - 1, k);
    }
  }

  /** A digit string led by a digit below k denotes a number below k * 256^(n-1). */
  lemma {:induction false} LeadingDigitBound(s: seq<byte>, k: nat)
    requires s != [] && s[0] < k
    ensures Value(s) < k * Pow256(|s| - 1)
  {
    if |s| > 1 {
      LeadingDigitBound(s[..|s| - 1], k);
      assert k * Pow256(|s| - 1) == 256 * (k * Pow256(|s| - 2));
    } else {
      assert Value(s[..0]) == 0;
    }
  }

  /** s with the bytes from position at onwards overwritten by src. */
  function Splice(s: seq<byte>, at: nat, src: seq<byte>): (r: seq<byte>)
    requires at + |src| <= |s|
    ensures |r| == |s|
  {
    s[..at] + src + s[at + |src|..]
  }

  /** Writing two runs back to back is writing their concatenation. */
  lemma {:induction false} SpliceAgain(s: seq<byte>, at: nat, a: seq<byte>, b: seq<byte>)
    requires at + |a| + |b| <= |s|
    ensures Splice(Splice(s, at, a), at + |a|, b) == Splice(s, at, a + b)
  {
  }

  /** Writing one byte right behind a run is writing the longer run. */
  lemma {:induction false} SpliceNext(s: seq<byte>, at: nat, src: seq<byte>, i: nat)
    requires at + |src| <= |s| && i < |src|
    ensures Splice(s, at, src[..i])[at + i := src[i]] == Splice(s, at, src[..i + 1])
  {
    assert src[..i + 1] == src[..i] + [src[i]];
  }
}
