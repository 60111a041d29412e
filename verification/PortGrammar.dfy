/** What a port spec means, for every text: how ports are spelled, what parts and lists denote, what is dialed. */
module PortGrammar {
  import opened Bytes
  import opened Ascii
  import opened Percent
  import opened PortUnion

  // ----- numbers -----

  /** The decimal numeral of n. */
  function Numeral(n: nat): (s: Text)
    ensures s != []
  {
    if n < 10 then [48 + n] else Numeral(n / 10) + [48 + n % 10]
  }

  function Zeros(k: nat): (s: Text)
    ensures |s| == k && forall i :: 0 <= i < k ==> s[i] == 48
  {
    seq(k, _ => 48)
  }

  lemma {:induction false} NumeralMeans(n: nat)
    ensures Digits(Numeral(n)) && Decimal(Numeral(n)) == n
  {
    if n < 10 {
      assert Numeral(n)[..0] == [];
    } else {
      NumeralMeans(n / 10);
      assert Numeral(n)[..|Numeral(n)| - 1] == Numeral(n / 10);
    }
  }

  lemma {:induction false} ZerosChangeNothing(k: nat, s: Text)
    requires Digits(s)
    ensures Digits(Zeros(k) + s) && Decimal(Zeros(k) + s) == Decimal(s)
    decreases |s|
  {
    var t := Zeros(k) + s;
    assert forall i :: 0 <= i < |t| ==> t[i] == if i < k then 48 else s[i - k];
    assert t[..|t| - 1] == Zeros(k) + s[..|s| - 1];
    if |s| == 1 {
      ZerosAreZero(k);
      assert Zeros(k) + [] == Zeros(k) && s[..0] == [];
    } else {
      ZerosChangeNothing(k, s[..|s| - 1]);
    }
  }

  lemma {:induction false} ZerosAreZero(k: nat)
    ensures Decimal(Zeros(k)) == 0
  {
    if k > 0 {
      assert Zeros(k)[..k - 1] == Zeros(k - 1);
      ZerosAreZero(k - 1);
    }
  }

  /** Digits are zeros followed by the numeral of their value. */
  lemma {:induction false} DigitsAreNumeral(d: Text) returns (k: nat)
    requires Digits(d)
    ensures d == Zeros(k) + Numeral(Decimal(d))
    decreases |d|
  {
    var init, c := d[..|d| - 1], d[|d| - 1];
    assert d == init + [c];
    if init == [] {
      k := 0;
      assert Decimal(init) == 0 && Numeral(c - 48) == [c];
    } else {
      k := DigitsAreNumeral(init);
      NextDigit(k, Decimal(init), c);
      if Decimal(init) == 0 {
        k := k + 1;
      }
    }
  }

  lemma {:induction false} NextDigit(k: nat, x: nat, c: byte)
    requires 48 <= c <= 57
    ensures Zeros(k) + Numeral(x) + [c] == Zeros(if x == 0 then k + 1 else k) + Numeral(10 * x + (c - 48))
  {
    var y := 10 * x + (c - 48);
    if x == 0 {
      assert Numeral(0) == [48] && Numeral(y) == [c];
      assert Zeros(k) + [48] == Zeros(k + 1);
    } else {
      assert y / 10 == x && y % 10 == c - 48;
      assert Numeral(y) == Numeral(x) + [c];
    }
  }

  function Signed(plus: bool, digits: Text): Text {
    if plus then [PLUS] + digits else digits
  }

  /** The text is a spelling of this number: its numeral, perhaps behind zeros, perhaps behind a plus. */
  ghost predicate SpellsPort(s: Text, v: u16) {
    exists plus: bool, k: nat :: s == Signed(plus, Zeros(k) + Numeral(v))
  }

  /** A port is read from exactly its spellings. */
  lemma {:induction false} PortIff(s: Text, v: u16)
    ensures ParseU16(s) == Some(v) <==> SpellsPort(s, v)
  {
    if ParseU16(s) == Some(v) {
      var plus := |s| > 1 && s[0] == PLUS;
      var digits := if plus then s[1..] else s;
      var k := DigitsAreNumeral(digits);
      assert s == Signed(plus, digits);
    }
    if plus: bool, k: nat :| s == Signed(plus, Zeros(k) + Numeral(v)) {
      NumeralMeans(v);
      ZerosChangeNothing(k, Numeral(v));
      if plus {
        assert s[1..] == Zeros(k) + Numeral(v);
      }
    }
  }

  // ----- parts -----

  /** One port, or two around a dash, as written. */
  ghost predicate SpellsPart(part: Text, a: u16, b: u16) {
    || (a == b && SpellsPort(part, a))
    || exists x: Text, y: Text :: part == x + [DASH] + y && SpellsPort(x, a) && SpellsPort(y, b)
  }

  lemma {:induction false} PortHasNo(s: Text, v: u16, c: byte)
    requires SpellsPort(s, v) && c != PLUS && !(48 <= c <= 57)
    ensures c !in s
  {
    PortIff(s, v);
  }

  lemma {:induction false} SplitNone(s: Text, c: byte)
    requires c !in s
    ensures Split(s, c) == [s]
  {
  }

  lemma {:induction false} SplitOnce(x: Text, y: Text, c: byte)
    requires c !in x
    ensures Split(x + [c] + y, c) == [x] + Split(y, c)
  {
    var s := x + [c] + y;
    assert s == x + ([c] + y);
    IndexOfConcat(x, [c] + y, c);
    assert s[..|x|] == x && s[|x| + 1..] == y;
  }

  lemma {:induction false} OnePortMeans(part: Text, a: u16)
    requires SpellsPort(part, a)
    ensures ParsePart(part) == Some(PortRange(a, a))
  {
    PortHasNo(part, a, DASH);
    PortIff(part, a);
  }

  lemma {:induction false} TwoPortsMean(x: Text, y: Text, a: u16, b: u16)
    requires SpellsPort(x, a) && SpellsPort(y, b)
    ensures ParsePart(x + [DASH] + y) == Some(if a <= b then PortRange(a, b) else PortRange(b, a))
  {
    var part := x + [DASH] + y;
    PortHasNo(x, a, DASH);
    PortHasNo(y, b, DASH);
    SplitOnce(x, y, DASH);
    SplitNone(y, DASH);
    PortIff(x, a);
    PortIff(y, b);
    assert part[|x|] == DASH;
    assert Split(part, DASH) == [x, y];
  }

  /** A part denotes the range between its ends, in whichever order they are written. */
  lemma {:induction false} PartMeans(part: Text, a: u16, b: u16)
    requires SpellsPart(part, a, b)
    ensures ParsePart(part) == Some(if a <= b then PortRange(a, b) else PortRange(b, a))
  {
    if a == b && SpellsPort(part, a) {
      OnePortMeans(part, a);
    } else {
      var x: Text, y: Text :| part == x + [DASH] + y && SpellsPort(x, a) && SpellsPort(y, b);
      TwoPortsMean(x, y, a, b);
    }
  }

  lemma {:induction false} TwoBounds(part: Text)
    requires |Split(part, DASH)| == 2
    ensures var bounds := Split(part, DASH); part == bounds[0] + [DASH] + bounds[1]
  {
    var i := IndexOf(part, DASH);
    var rest := part[i + 1..];
    assert Split(rest, DASH) == [Split(part, DASH)[1]];
    assert IndexOf(rest, DASH) == |rest|;
    assert part == part[..i] + [DASH] + rest;
  }

  /** A part that spells nothing is refused. */
  lemma {:induction false} PartRefused(part: Text)
    requires forall a: u16, b: u16 :: !SpellsPart(part, a, b)
    ensures ParsePart(part) == None
  {
    if ParsePart(part).Some? {
      if DASH in part {
        var bounds := Split(part, DASH);
        var a, b := ParseU16(bounds[0]).value, ParseU16(bounds[1]).value;
        PortIff(bounds[0], a);
        PortIff(bounds[1], b);
        TwoBounds(part);
        assert SpellsPart(part, a, b);
      } else {
        PortIff(part, ParseU16(part).value);
        assert SpellsPart(part, ParseU16(part).value, ParseU16(part).value);
      }
    }
  }

  // ----- lists -----

  /** The parts with commas between them. */
  function Listed(parts: seq<Text>): Text
    requires parts != []
  {
    if |parts| == 1 then parts[0] else parts[0] + [COMMA] + Listed(parts[1..])
  }

  predicate CommaFree(parts: seq<Text>) {
    forall i :: 0 <= i < |parts| ==> COMMA !in parts[i]
  }

  lemma {:induction false} SplitListed(parts: seq<Text>)
    requires parts != [] && CommaFree(parts)
    ensures Split(Listed(parts), COMMA) == parts
  {
    if |parts| == 1 {
      SplitNone(parts[0], COMMA);
    } else {
      SplitListed(parts[1..]);
      SplitOnce(parts[0], Listed(parts[1..]), COMMA);
    }
  }

  /** Every text is such a list, in one way. */
  lemma {:induction false} EveryTextIsListed(s: Text)
    ensures CommaFree(Split(s, COMMA)) && Listed(Split(s, COMMA)) == s
    decreases |s|
  {
    var i := IndexOf(s, COMMA);
    if i < |s| {
      var first, rest := s[..i], s[i + 1..];
      EveryTextIsListed(rest);
      assert s == first + [COMMA] + rest;
      SplitOnce(first, rest, COMMA);
      ListedCons(first, Split(rest, COMMA));
    } else {
      SplitNone(s, COMMA);
    }
  }

  lemma {:induction false} ListedCons(first: Text, rest: seq<Text>)
    requires rest != []
    ensures Listed([first] + rest) == first + [COMMA] + Listed(rest)
    ensures COMMA !in first && CommaFree(rest) ==> CommaFree([first] + rest)
  {
    assert ([first] + rest)[1..] == rest;
  }

  /** Ends of a part, as written. */
  datatype Ends = Ends(a: u16, b: u16)
  {
    predicate Denotes(p: int) { a <= p <= b || b <= p <= a }

    function Range(): PortRange { if a <= b then PortRange(a, b) else PortRange(b, a) }
  }

  predicate Ranged(ranges: seq<PortRange>, ends: seq<Ends>) {
    |ranges| == |ends| && forall i :: 0 <= i < |ends| ==> ranges[i] == ends[i].Range()
  }

  ghost predicate SpellsParts(parts: seq<Text>, ends: seq<Ends>) {
    |parts| == |ends| && forall i :: 0 <= i < |parts| ==> SpellsPart(parts[i], ends[i].a, ends[i].b)
  }

  lemma {:induction false} PartHasNo(part: Text, a: u16, b: u16, c: byte)
    requires SpellsPart(part, a, b) && c != PLUS && c != DASH && !(48 <= c <= 57)
    ensures c !in part
  {
    if a == b && SpellsPort(part, a) {
      PortHasNo(part, a, c);
    } else {
      var x: Text, y: Text :| part == x + [DASH] + y && SpellsPort(x, a) && SpellsPort(y, b);
      PortHasNo(x, a, c);
      PortHasNo(y, b, c);
    }
  }

  lemma {:induction false} PartsHaveNo(parts: seq<Text>, ends: seq<Ends>)
    requires SpellsParts(parts, ends)
    ensures forall i :: 0 <= i < |parts| ==> COMMA !in parts[i] && COLON !in parts[i]
  {
    forall i | 0 <= i < |parts|
      ensures COMMA !in parts[i] && COLON !in parts[i]
    {
      PartHasNo(parts[i], ends[i].a, ends[i].b, COMMA);
      PartHasNo(parts[i], ends[i].a, ends[i].b, COLON);
    }
  }

  lemma {:induction false} ListHasNoColon(parts: seq<Text>)
    requires parts != [] && forall i :: 0 <= i < |parts| ==> COLON !in parts[i]
    ensures COLON !in Listed(parts)
  {
    if |parts| > 1 {
      ListHasNoColon(parts[1..]);
    }
  }

  lemma {:induction false} WordsArePartless()
    ensures ParsePart(ALL) == None && ParsePart(STAR) == None
    ensures Split(ALL, COMMA) == [ALL] && Split(STAR, COMMA) == [STAR]
  {
    SplitNone(ALL, COMMA);
    SplitNone(STAR, COMMA);
    assert !Digits(ALL) by { assert ALL[0] == 97; }
    assert !Digits(STAR) by { assert STAR[0] == 42; }
  }

  lemma {:induction false} PartsMean(parts: seq<Text>, ends: seq<Ends>)
    requires SpellsParts(parts, ends)
    ensures ParseParts(parts).Some? && Ranged(ParseParts(parts).value, ends)
  {
    var ranges := seq(|ends|, i requires 0 <= i < |ends| => ends[i].Range());
    forall i | 0 <= i < |parts|
      ensures ParsePart(parts[i]) == Some(ranges[i])
    {
      PartMeans(parts[i], ends[i].a, ends[i].b);
    }
    PartsCollect(parts, ranges);
  }

  lemma {:induction false} PartsCollect(parts: seq<Text>, ranges: seq<PortRange>)
    requires |parts| == |ranges| && forall i :: 0 <= i < |parts| ==> ParsePart(parts[i]) == Some(ranges[i])
    ensures ParseParts(parts) == Some(ranges)
  {
    if parts != [] {
      var n := |parts| - 1;
      PartsCollect(parts[..n], ranges[..n]);
      assert ranges == ranges[..n] + [ranges[n]];
    }
  }

  /** A list of parts denotes the ports of all of them, and no others. */
  lemma {:induction false} ListMeans(parts: seq<Text>, ends: seq<Ends>)
    requires parts != [] && SpellsParts(parts, ends)
    ensures ParseUnion(Listed(parts)).Some? && Canonical(ParseUnion(Listed(parts)).value)
    ensures forall p: int :: Contains(ParseUnion(Listed(parts)).value, p) <==>
              exists i :: 0 <= i < |ends| && ends[i].Denotes(p)
  {
    PartsHaveNo(parts, ends);
    SplitListed(parts);
    PartsMean(parts, ends);
    PartMeans(parts[0], ends[0].a, ends[0].b);
    WordsArePartless();
    var ranges := ParseParts(parts).value;
    PartsProper(parts);
    NormalizeCorrect(ranges);
    RangesDenote(ranges, ends);
  }

  lemma {:induction false} RangesDenote(ranges: seq<PortRange>, ends: seq<Ends>)
    requires Ranged(ranges, ends)
    ensures forall p: int :: Contains(ranges, p) <==> exists i :: 0 <= i < |ends| && ends[i].Denotes(p)
  {
    forall p: int
      ensures Contains(ranges, p) <==> exists i :: 0 <= i < |ends| && ends[i].Denotes(p)
    {
      if i :| 0 <= i < |ends| && ends[i].Denotes(p) {
        assert Holds(ranges[i], p);
      }
      if i :| 0 <= i < |ranges| && Holds(ranges[i], p) {
        assert ends[i].Denotes(p);
      }
    }
  }

  /** A list with a part that spells nothing is refused as a whole. */
  lemma {:induction false} ListRefused(parts: seq<Text>, i: nat)
    requires CommaFree(parts) && i < |parts| && forall a: u16, b: u16 :: !SpellsPart(parts[i], a, b)
    requires Listed(parts) != Literal("all") && Listed(parts) != Literal("*")
    ensures ParseUnion(Listed(parts)) == None
  {
    Words();
    SplitListed(parts);
    PartRefused(parts[i]);
    PartsFail(parts, i);
  }

  lemma {:induction false} Words()
    ensures Literal("all") == ALL && Literal("*") == STAR && Literal("443") == DEFAULT_PORT
  {
    var a, d := "all", "443";
    assert a[0] == 'a' && a[1] == 'l' && a[2] == 'l' && d[0] == '4' && d[1] == '4' && d[2] == '3';
  }

  /** Two words stand for every port. */
  lemma {:induction false} WildcardMeans(p: int)
    ensures ParseUnion(Literal("all")).Some? && ParseUnion(Literal("*")).Some?
    ensures Contains(ParseUnion(Literal("all")).value, p) <==> 0 <= p <= 65535
    ensures Contains(ParseUnion(Literal("*")).value, p) <==> 0 <= p <= 65535
  {
    Words();
    var every := [PortRange(0, 65535)];
    assert Contains(every, p) <==> Holds(every[0], p);
  }

  // ----- addresses -----

  /** A bracketed literal without a port has the spec 443. */
  lemma {:induction false} BracketedDefault(a: Text, b: Text)
    requires CLOSE_BRACKET !in a && (b == [] || b[0] != COLON || |b| == 1)
    ensures PortSpec([OPEN_BRACKET] + (a + ([CLOSE_BRACKET] + b))) == Literal("443")
  {
    Words();
    var close := [CLOSE_BRACKET] + b;
    var rest := a + close;
    assert ([OPEN_BRACKET] + rest)[1..] == rest;
    IndexOfConcat(a, close, CLOSE_BRACKET);
    assert rest[|a|] == CLOSE_BRACKET;
    assert rest[|a| + 1..] == b by { assert rest[|a| + 1..] == close[1..]; }
  }

  lemma {:induction false} IndexOfAtMost(s: Text, c: byte, k: nat)
    requires k < |s| && s[k] == c
    ensures IndexOf(s, c) <= k
  {
    if k > 0 {
      IndexOfAtMost(s[1..], c, k - 1);
    }
  }

  /** So has a bare IPv6 literal, which has two colons. */
  lemma {:induction false} BareLiteralDefault(a: Text, b: Text, c: Text)
    requires a == [] || a[0] != OPEN_BRACKET
    ensures PortSpec(a + ([COLON] + (b + ([COLON] + c)))) == Literal("443")
  {
    Words();
    var s := a + ([COLON] + (b + ([COLON] + c)));
    var i := IndexOf(s, COLON);
    assert s[|a|] == COLON && s[|a| + 1 + |b|] == COLON;
    IndexOfAtMost(s, COLON, |a|);
    if i < |s| - 1 {
      assert s[i + 1..][|a| + |b| - i] == COLON;
    }
  }

  /** And so has an address with nothing on one side of its colon. */
  lemma {:induction false} EmptySideDefault(a: Text)
    ensures COLON !in a && (a == [] || a[0] != OPEN_BRACKET) ==> PortSpec(a + [COLON]) == Literal("443")
    ensures PortSpec([COLON] + a) == Literal("443")
  {
    Words();
    if COLON !in a {
      IndexOfConcat(a, [COLON], COLON);
    }
    assert IndexOf([COLON] + a, COLON) == 0;
  }

  /** A plain host with one port dials that port and does not hop; without a port it dials 443. */
  lemma {:induction false} SinglePortDials(host: Text, spec: Text, v: u16)
    requires host != [] && host[0] != OPEN_BRACKET && COLON !in host && SpellsPort(spec, v)
    ensures Resolve(host + ([COLON] + spec)) == Dial(v, None)
    ensures Resolve(host) == Dial(443, None)
  {
    PortHasNo(spec, v, COLON);
    PortHasNo(spec, v, DASH);
    PortHasNo(spec, v, COMMA);
    PortIff(spec, v);
    assert spec != [] by { assert ParseU16([]) == None; }
    PortSpecOfServer(host, spec);
    TokenIsAll(spec);
    NumeralOfDefault();
    PortIff(DEFAULT_PORT, 443);
    PortHasNo(DEFAULT_PORT, 443, DASH);
    PortHasNo(DEFAULT_PORT, 443, COMMA);
    TokenIsAll(DEFAULT_PORT);
  }

  lemma {:induction false} TokenIsAll(spec: Text)
    requires DASH !in spec && COMMA !in spec
    ensures FirstToken(spec) == spec && !Hops(spec)
  {
  }

  lemma {:induction false} NumeralOfDefault()
    ensures SpellsPort(DEFAULT_PORT, 443)
  {
    assert Numeral(4) == [52] && Numeral(44) == [52, 52] && Numeral(443) == [52, 52, 51];
    assert Signed(false, Zeros(0) + Numeral(443)) == DEFAULT_PORT;
  }

  /** A plain host with a range or a list hops over its ports and first dials the first number written. */
  lemma {:induction false} HoppingDials(host: Text, parts: seq<Text>, ends: seq<Ends>)
    requires host != [] && host[0] != OPEN_BRACKET && COLON !in host
    requires SpellsParts(parts, ends) && (|parts| >= 2 || (|parts| == 1 && DASH in parts[0]))
    ensures Resolve(host + ([COLON] + Listed(parts))) == Dial(ends[0].a, ParseUnion(Listed(parts)))
  {
    var spec := Listed(parts);
    ListMeans(parts, ends);
    PartsHaveNo(parts, ends);
    ListHasNoColon(parts);
    ListHops(parts);
    PortSpecOfServer(host, spec);
    FirstDialed(parts, ends);
    assert PortSpec(host + ([COLON] + spec)) == spec;
  }

  lemma {:induction false} ListHops(parts: seq<Text>)
    requires |parts| >= 2 || (|parts| == 1 && DASH in parts[0])
    ensures Hops(Listed(parts)) && Listed(parts) != []
  {
    if |parts| >= 2 {
      assert Listed(parts)[|parts[0]|] == COMMA;
    }
  }

  lemma {:induction false} FirstDialed(parts: seq<Text>, ends: seq<Ends>)
    requires parts != [] && SpellsParts(parts, ends)
    ensures PrimaryPort(Listed(parts)) == Some(ends[0].a)
  {
    PartsHaveNo(parts, ends);
    SplitListed(parts);
    TokenOfFirstPart(Listed(parts));
    FirstNumber(parts[0], ends[0].a, ends[0].b);
  }

  lemma {:induction false} FirstNumber(part: Text, a: u16, b: u16)
    requires SpellsPart(part, a, b)
    ensures ParseU16(if DASH in part then Split(part, DASH)[0] else part) == Some(a)
  {
    if a == b && SpellsPort(part, a) {
      PortHasNo(part, a, DASH);
      PortIff(part, a);
    } else {
      var x: Text, y: Text :| part == x + [DASH] + y && SpellsPort(x, a) && SpellsPort(y, b);
      PortHasNo(x, a, DASH);
      SplitOnce(x, y, DASH);
      PortIff(x, a);
    }
  }
}
