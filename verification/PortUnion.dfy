/** Port specs for port hopping: parsing, normalization into disjoint ranges, and the port dialed first. */
module PortUnion {
  import opened Bytes
  import opened Ascii
  import opened Percent

  datatype PortRange = PortRange(start: u16, end: u16)

  predicate Proper(r: PortRange) { r.start <= r.end }

  predicate Holds(r: PortRange, p: int) { r.start <= p <= r.end }

  predicate AllProper(rs: seq<PortRange>) {
    forall i :: 0 <= i < |rs| ==> Proper(rs[i])
  }

  /** `contains`: the set of ports a list of ranges denotes. */
  predicate Contains(rs: seq<PortRange>, p: int) {
    exists i :: 0 <= i < |rs| && Holds(rs[i], p)
  }

  ghost predicate SamePorts(a: seq<PortRange>, b: seq<PortRange>) {
    forall p: int :: Contains(a, p) <==> Contains(b, p)
  }

  /** Proper ranges in increasing order with at least one port between neighbours. */
  predicate Canonical(rs: seq<PortRange>) {
    AllProper(rs) && forall i, j :: 0 <= i < j < |rs| ==> rs[i].end + 1 < rs[j].start
  }

  // ----- normalization -----

  predicate Before(a: PortRange, b: PortRange) {
    a.start < b.start || (a.start == b.start && a.end <= b.end)
  }

  predicate Sorted(rs: seq<PortRange>) {
    forall i, j :: 0 <= i < j < |rs| ==> Before(rs[i], rs[j])
  }

  function Insert(r: PortRange, rs: seq<PortRange>): seq<PortRange> {
    if rs == [] || Before(r, rs[0]) then [r] + rs else [rs[0]] + Insert(r, rs[1..])
  }

  /** The sorted list of the same ranges. */
  function Sort(rs: seq<PortRange>): seq<PortRange> {
    if rs == [] then [] else Insert(rs[0], Sort(rs[1..]))
  }

  /** One step of the merge: extend the last range, or start a new one. */
  function Absorb(done: seq<PortRange>, r: PortRange): seq<PortRange> {
    if done != [] && r.start <= done[|done| - 1].end + 1 then
      var last := done[|done| - 1];
      if r.end > last.end then done[|done| - 1 := last.(end := r.end)] else done
    else done + [r]
  }

  function Merge(rs: seq<PortRange>): seq<PortRange> {
    if rs == [] then [] else Absorb(Merge(rs[..|rs| - 1]), rs[|rs| - 1])
  }

  function Normalize(rs: seq<PortRange>): seq<PortRange> {
    Merge(Sort(rs))
  }

  lemma {:induction false} InsertElements(r: PortRange, rs: seq<PortRange>)
    ensures multiset(Insert(r, rs)) == multiset{r} + multiset(rs)
  {
    if rs != [] && !Before(r, rs[0]) {
      InsertElements(r, rs[1..]);
      assert rs == [rs[0]] + rs[1..];
    }
  }

  lemma {:induction false} SortElements(rs: seq<PortRange>)
    ensures multiset(Sort(rs)) == multiset(rs)
  {
    if rs != [] {
      SortElements(rs[1..]);
      InsertElements(rs[0], Sort(rs[1..]));
      assert rs == [rs[0]] + rs[1..];
    }
  }

  lemma {:induction false} SameElements(a: seq<PortRange>, b: seq<PortRange>)
    requires multiset(a) == multiset(b)
    ensures forall r :: r in a <==> r in b
  {
    forall r: PortRange
      ensures r in a <==> r in b
    {
      assert r in a <==> r in multiset(a);
      assert r in b <==> r in multiset(b);
    }
  }

  lemma {:induction false} InsertSorted(r: PortRange, rs: seq<PortRange>)
    requires Sorted(rs)
    ensures Sorted(Insert(r, rs))
  {
    if rs == [] || Before(r, rs[0]) {
    } else {
      InsertSorted(r, rs[1..]);
      var tail := Insert(r, rs[1..]);
      InsertElements(r, rs[1..]);
      SameElements(tail, [r] + rs[1..]);
      forall j | 0 <= j < |tail|
        ensures Before(rs[0], tail[j])
      {
        assert tail[j] in [r] + rs[1..];
      }
    }
  }

  lemma {:induction false} SortSorted(rs: seq<PortRange>)
    ensures Sorted(Sort(rs))
  {
    if rs != [] {
      SortSorted(rs[1..]);
      InsertSorted(rs[0], Sort(rs[1..]));
    }
  }

  lemma {:induction false} ContainsByElements(a: seq<PortRange>, b: seq<PortRange>)
    requires forall r :: r in a <==> r in b
    ensures SamePorts(a, b)
    ensures AllProper(a) ==> AllProper(b)
  {
    forall p: int | Contains(a, p)
      ensures Contains(b, p)
    {
      var i :| 0 <= i < |a| && Holds(a[i], p);
      assert a[i] in b;
    }
    forall p: int | Contains(b, p)
      ensures Contains(a, p)
    {
      var i :| 0 <= i < |b| && Holds(b[i], p);
      assert b[i] in a;
    }
    if AllProper(a) {
      forall i | 0 <= i < |b|
        ensures Proper(b[i])
      {
        assert b[i] in a;
      }
    }
  }

  predicate LastStartsBy(rs: seq<PortRange>, p: int) {
    rs != [] ==> rs[|rs| - 1].start <= p
  }

  lemma {:induction false} AbsorbPorts(done: seq<PortRange>, r: PortRange, p: int)
    requires LastStartsBy(done, r.start)
    ensures Contains(Absorb(done, r), p) <==> Contains(done, p) || Holds(r, p)
  {
    var next := Absorb(done, r);
    var n := |done|;
    if n > 0 && r.start <= done[n - 1].end + 1 {
      assert forall i :: 0 <= i < n - 1 ==> next[i] == done[i];
      assert Holds(next[n - 1], p) <==> Holds(done[n - 1], p) || Holds(r, p);
    } else {
      assert forall i :: 0 <= i < n ==> next[i] == done[i];
      assert next[n] == r;
    }
  }

  lemma {:induction false} AbsorbCanonical(done: seq<PortRange>, r: PortRange)
    requires Canonical(done) && Proper(r) && LastStartsBy(done, r.start)
    ensures Canonical(Absorb(done, r)) && LastStartsBy(Absorb(done, r), r.start)
  {
  }

  lemma {:induction false} SortedInit(rs: seq<PortRange>)
    requires Sorted(rs) && AllProper(rs) && rs != []
    ensures Sorted(rs[..|rs| - 1]) && AllProper(rs[..|rs| - 1]) && Proper(rs[|rs| - 1])
    ensures LastStartsBy(rs[..|rs| - 1], rs[|rs| - 1].start)
  {
    if |rs| > 1 {
      assert Before(rs[|rs| - 2], rs[|rs| - 1]);
    }
  }

  lemma {:induction false} MergeCanonical(rs: seq<PortRange>)
    requires Sorted(rs) && AllProper(rs)
    ensures Canonical(Merge(rs))
    ensures forall p: int :: LastStartsBy(rs, p) ==> LastStartsBy(Merge(rs), p)
  {
    if rs != [] {
      SortedInit(rs);
      MergeCanonical(rs[..|rs| - 1]);
      AbsorbCanonical(Merge(rs[..|rs| - 1]), rs[|rs| - 1]);
    }
  }

  lemma {:induction false} MergePorts(rs: seq<PortRange>, p: int)
    requires Sorted(rs) && AllProper(rs)
    ensures Contains(Merge(rs), p) <==> Contains(rs, p)
  {
    if rs != [] {
      var init, r := rs[..|rs| - 1], rs[|rs| - 1];
      SortedInit(rs);
      MergeCanonical(init);
      MergePorts(init, p);
      AbsorbPorts(Merge(init), r, p);
      ContainsSnoc(init, r, p);
      assert rs == init + [r];
    }
  }

  lemma {:induction false} ContainsSnoc(rs: seq<PortRange>, r: PortRange, p: int)
    ensures Contains(rs + [r], p) <==> Contains(rs, p) || Holds(r, p)
  {
    var all := rs + [r];
    assert all[|rs|] == r;
    if Contains(rs, p) {
      var i :| 0 <= i < |rs| && Holds(rs[i], p);
      assert Holds(all[i], p);
    }
  }

  lemma {:induction false} ContainsCons(r: PortRange, rs: seq<PortRange>, p: int)
    ensures Contains([r] + rs, p) <==> Holds(r, p) || Contains(rs, p)
  {
    var all := [r] + rs;
    assert all[0] == r;
    if Contains(rs, p) {
      var i :| 0 <= i < |rs| && Holds(rs[i], p);
      assert Holds(all[i + 1], p);
    }
    if Contains(all, p) && !Holds(r, p) {
      var i :| 0 <= i < |all| && Holds(all[i], p);
      assert Holds(rs[i - 1], p);
    }
  }

  /** The result is canonical and denotes the same ports. */
  lemma {:induction false} NormalizeCorrect(rs: seq<PortRange>)
    requires AllProper(rs)
    ensures Canonical(Normalize(rs)) && SamePorts(Normalize(rs), rs)
  {
    SortSorted(rs);
    SortElements(rs);
    SameElements(rs, Sort(rs));
    ContainsByElements(rs, Sort(rs));
    MergeCanonical(Sort(rs));
    forall p: int
      ensures Contains(Normalize(rs), p) <==> Contains(rs, p)
    {
      MergePorts(Sort(rs), p);
    }
  }

  lemma {:induction false} FirstStart(a: seq<PortRange>, b: seq<PortRange>)
    requires Canonical(a) && Canonical(b) && a != [] && SamePorts(a, b)
    ensures b != [] && b[0].start <= a[0].start
  {
    assert Holds(a[0], a[0].start);
    assert Contains(b, a[0].start);
    var i :| 0 <= i < |b| && Holds(b[i], a[0].start);
  }

  lemma {:induction false} FirstEnd(a: seq<PortRange>, b: seq<PortRange>)
    requires Canonical(a) && Canonical(b) && a != [] && b != [] && SamePorts(a, b)
    requires a[0].start == b[0].start
    ensures b[0].end <= a[0].end
  {
    var p: int := a[0].end + 1;
    assert !Contains(a, p) by {
      forall i | 0 <= i < |a|
        ensures !Holds(a[i], p)
      {
      }
    }
    assert !Contains(b, p);
    assert !Holds(b[0], p);
  }

  lemma {:induction false} TailPorts(r: PortRange, a: seq<PortRange>, p: int)
    requires Canonical([r] + a)
    ensures Contains(a, p) <==> Contains([r] + a, p) && !Holds(r, p)
  {
    ContainsCons(r, a, p);
    var all := [r] + a;
    if Contains(a, p) {
      var i :| 0 <= i < |a| && Holds(a[i], p);
      assert all[i + 1] == a[i];
      assert all[0].end + 1 < all[i + 1].start;
    }
  }

  /** A set of ports has one canonical form. */
  lemma {:induction false} CanonicalUnique(a: seq<PortRange>, b: seq<PortRange>)
    requires Canonical(a) && Canonical(b) && SamePorts(a, b)
    ensures a == b
  {
    if a == [] {
      if b != [] {
        FirstStart(b, a);
      }
    } else {
      FirstStart(a, b);
      FirstStart(b, a);
      FirstEnd(a, b);
      FirstEnd(b, a);
      assert a == [a[0]] + a[1..] && b == [b[0]] + b[1..];
      forall p: int
        ensures Contains(a[1..], p) <==> Contains(b[1..], p)
      {
        TailPorts(a[0], a[1..], p);
        TailPorts(b[0], b[1..], p);
      }
      CanonicalUnique(a[1..], b[1..]);
    }
  }

  /** `normalize` is a canonical form: equal results exactly for equal sets of ports, and it is idempotent. */
  lemma {:induction false} NormalForm(a: seq<PortRange>, b: seq<PortRange>)
    requires AllProper(a) && AllProper(b)
    ensures Normalize(a) == Normalize(b) <==> SamePorts(a, b)
    ensures Normalize(Normalize(a)) == Normalize(a)
  {
    NormalizeCorrect(a);
    NormalizeCorrect(b);
    NormalizeCorrect(Normalize(a));
    CanonicalUnique(Normalize(Normalize(a)), Normalize(a));
    if SamePorts(a, b) {
      CanonicalUnique(Normalize(a), Normalize(b));
    }
  }

  /** The merge loop of `normalize`, updating the last range in place. */
  method NormalizeRanges(ranges: seq<PortRange>) returns (normalized: seq<PortRange>)
    ensures normalized == Normalize(ranges)
  {
    var sorted := Sort(ranges);
    normalized := [];
    for i := 0 to |sorted|
      invariant normalized == Merge(sorted[..i])
    {
      assert sorted[..i + 1][..i] == sorted[..i];
      var current := sorted[i];
      if |normalized| > 0 && current.start <= normalized[|normalized| - 1].end + 1 {
        if current.end > normalized[|normalized| - 1].end {
          normalized := normalized[|normalized| - 1 := normalized[|normalized| - 1].(end := current.end)];
        }
      } else {
        normalized := normalized + [current];
      }
    }
    assert sorted[..|sorted|] == sorted;
  }

  predicate Increasing(ports: seq<int>) {
    forall i, j :: 0 <= i < j < |ports| ==> ports[i] < ports[j]
  }

  /** `ports`: exactly the ports of the union, in increasing order when it is canonical. */
  method Ports(rs: seq<PortRange>) returns (ports: seq<int>)
    requires AllProper(rs)
    ensures forall p :: p in ports <==> Contains(rs, p)
    ensures Canonical(rs) ==> Increasing(ports)
  {
    ports := [];
    for i := 0 to |rs|
      invariant forall p :: p in ports <==> Contains(rs[..i], p)
      invariant Canonical(rs) ==> Increasing(ports)
      invariant i == 0 ==> ports == []
      invariant Canonical(rs) && i > 0 ==> forall k :: 0 <= k < |ports| ==> ports[k] <= rs[i - 1].end
    {
      ghost var before := ports;
      assert rs[..i + 1] == rs[..i] + [rs[i]];
      var port: int := rs[i].start;
      while port <= rs[i].end
        invariant rs[i].start <= port <= rs[i].end + 1
        invariant forall p :: p in ports <==> p in before || rs[i].start <= p < port
        invariant Canonical(rs) ==> Increasing(ports) && forall k :: 0 <= k < |ports| ==> ports[k] < port
      {
        ports := ports + [port];
        port := port + 1;
      }
      forall p: int
        ensures p in ports <==> Contains(rs[..i + 1], p)
      {
        ContainsSnoc(rs[..i], rs[i], p);
      }
    }
    assert rs[..|rs|] == rs;
  }

  // ----- parsing -----

  const ALL: Text := [97, 108, 108]
  const STAR: Text := [42]

  predicate Digits(s: Text) {
    s != [] && forall i :: 0 <= i < |s| ==> 48 <= s[i] <= 57
  }

  function Decimal(s: Text): nat
    requires forall i :: 0 <= i < |s| ==> 48 <= s[i] <= 57
  {
    if s == [] then 0 else Decimal(s[..|s| - 1]) * 10 + (s[|s| - 1] - 48)
  }

  /** `u16::from_str`: decimal digits, optionally after a plus sign, up to 65535. */
  function ParseU16(s: Text): Option<u16> {
    var digits := if |s| > 1 && s[0] == PLUS then s[1..] else s;
    if Digits(digits) && Decimal(digits) < 0x1_0000 then Some(Decimal(digits)) else None
  }

  /** `split`: the pieces between separators; always at least one. */
  function Split(s: Text, c: byte): (parts: seq<Text>)
    ensures parts != []
    decreases |s|
  {
    var i := IndexOf(s, c);
    if i < |s| then [s[..i]] + Split(s[i + 1..], c) else [s]
  }

  function MakeRange(a: u16, b: u16): PortRange {
    if a > b then PortRange(b, a) else PortRange(a, b)
  }

  function ParsePart(part: Text): Option<PortRange> {
    if DASH in part then
      var bounds := Split(part, DASH);
      if |bounds| != 2 then None
      else
        var a, b := ParseU16(bounds[0]), ParseU16(bounds[1]);
        if a.Some? && b.Some? then Some(MakeRange(a.value, b.value)) else None
    else
      var port := ParseU16(part);
      if port.Some? then Some(PortRange(port.value, port.value)) else None
  }

  /** All parts, or nothing. */
  function ParseParts(parts: seq<Text>): Option<seq<PortRange>> {
    if parts == [] then Some([])
    else
      var init, last := ParseParts(parts[..|parts| - 1]), ParsePart(parts[|parts| - 1]);
      if init.Some? && last.Some? then Some(init.value + [last.value]) else None
  }

  /** `parse_port_union`. */
  function ParseUnion(s: Text): Option<seq<PortRange>> {
    if s == ALL || s == STAR then Some([PortRange(0, 65535)])
    else
      match ParseParts(Split(s, COMMA))
      case None => None
      case Some(ranges) => Some(Normalize(ranges))
  }

  lemma {:induction false} PartsProper(parts: seq<Text>)
    ensures ParseParts(parts).Some? ==>
              && |ParseParts(parts).value| == |parts| && AllProper(ParseParts(parts).value)
              && forall i :: 0 <= i < |parts| ==> ParsePart(parts[i]) == Some(ParseParts(parts).value[i])
  {
    if parts != [] {
      PartsProper(parts[..|parts| - 1]);
    }
  }

  lemma {:induction false} PartsFail(parts: seq<Text>, i: nat)
    requires i < |parts| && ParsePart(parts[i]).None?
    ensures ParseParts(parts).None?
  {
    if i < |parts| - 1 {
      PartsFail(parts[..|parts| - 1], i);
    }
  }

  /** `parse_port_union` as it is written: the first part that does not parse ends it. */
  method ParsePortUnion(s: Text) returns (r: Option<seq<PortRange>>)
    ensures r == ParseUnion(s)
    ensures r.Some? ==> Canonical(r.value)
  {
    if s == ALL || s == STAR {
      return Some([PortRange(0, 65535)]);
    }
    var parts := Split(s, COMMA);
    var result: seq<PortRange> := [];
    for i := 0 to |parts|
      invariant ParseParts(parts[..i]) == Some(result)
    {
      assert parts[..i + 1][..i] == parts[..i];
      var range := ParsePart(parts[i]);
      if range.None? {
        PartsFail(parts, i);
        return None;
      }
      result := result + [range.value];
    }
    assert parts[..|parts|] == parts;
    PartsProper(parts);
    NormalizeCorrect(result);
    var normalized := NormalizeRanges(result);
    return Some(normalized);
  }

  // ----- the port dialed first -----

  const DEFAULT_PORT: Text := [52, 52, 51]

  /** `split_host_port`: host and port spec, the latter 443 when missing. */
  function PortSpec(server: Text): Text {
    if server != [] && server[0] == OPEN_BRACKET && CLOSE_BRACKET in server[1..] then
      var after := server[1..][IndexOf(server[1..], CLOSE_BRACKET) + 1..];
      if |after| > 1 && after[0] == COLON then after[1..] else DEFAULT_PORT
    else
      var i := IndexOf(server, COLON);
      if 0 < i < |server| - 1 && COLON !in server[i + 1..] then server[i + 1..] else DEFAULT_PORT
  }

  /** The spec is what follows the only colon, and 443 without one. */
  lemma {:induction false} PortSpecOfServer(host: Text, spec: Text)
    requires host != [] && host[0] != OPEN_BRACKET && COLON !in host
    requires spec != [] && COLON !in spec
    ensures PortSpec(host + ([COLON] + spec)) == spec && PortSpec(host) == DEFAULT_PORT
  {
    IndexOfConcat(host, [COLON] + spec, COLON);
    assert (host + ([COLON] + spec))[|host| + 1..] == spec;
  }

  /** After a bracketed literal it is what follows the colon there. */
  lemma {:induction false} PortSpecOfBracketed(host: Text, spec: Text)
    requires CLOSE_BRACKET !in host && spec != []
    ensures PortSpec([OPEN_BRACKET] + (host + ([CLOSE_BRACKET] + ([COLON] + spec)))) == spec
  {
    var port := [COLON] + spec;
    var close := [CLOSE_BRACKET] + port;
    var rest := host + close;
    assert ([OPEN_BRACKET] + rest)[1..] == rest;
    IndexOfConcat(host, close, CLOSE_BRACKET);
    assert rest[|host|] == CLOSE_BRACKET;
    assert rest[|host| + 1..] == port by {
      assert rest[|host| + 1..] == close[1..];
    }
    assert port[1..] == spec;
  }

  /** Everything before the first dash or comma. */
  function FirstToken(spec: Text): Text {
    var i, j := IndexOf(spec, DASH), IndexOf(spec, COMMA);
    spec[..if i < j then i else j]
  }

  /** `primary_port`. */
  function PrimaryPort(spec: Text): Option<u16> {
    ParseU16(FirstToken(spec))
  }

  predicate Hops(spec: Text) { DASH in spec || COMMA in spec }

  lemma {:induction false} FirstPart(s: Text, c: byte)
    ensures Split(s, c)[0] == s[..IndexOf(s, c)]
  {
    if c !in s {
      assert s[..|s|] == s;
    }
  }

  lemma {:induction false} TokenOfFirstPart(spec: Text)
    ensures var part := Split(spec, COMMA)[0];
            FirstToken(spec) == if DASH in part then Split(part, DASH)[0] else part
  {
    FirstPart(spec, COMMA);
    var part := Split(spec, COMMA)[0];
    FirstPart(part, DASH);
    var i, j := IndexOf(spec, DASH), IndexOf(spec, COMMA);
    if DASH in part {
      var k := IndexOf(part, DASH);
      assert part[..k] == spec[..k] && spec == spec[..k] + spec[k..];
      IndexOfConcat(spec[..k], spec[k..], DASH);
    } else {
      assert forall k :: 0 <= k < j ==> part[k] == spec[k];
    }
  }

  /** Whatever spec turns hopping on, the port dialed first parses and is one of the ports hopped over. */
  lemma {:induction false} PrimaryPortInUnion(spec: Text)
    requires Hops(spec) && ParseUnion(spec).Some?
    ensures PrimaryPort(spec).Some? && Contains(ParseUnion(spec).value, PrimaryPort(spec).value)
  {
    var parts := Split(spec, COMMA);
    assert spec != ALL && spec != STAR;
    PartsProper(parts);
    var ranges := ParseParts(parts).value;
    TokenOfFirstPart(spec);
    assert ParsePart(parts[0]) == Some(ranges[0]);
    assert Holds(ranges[0], PrimaryPort(spec).value);
    NormalizeCorrect(ranges);
  }

  datatype Dial = Dial(port: u16, hopPorts: Option<seq<PortRange>>) | InvalidRange | InvalidPort

  /** The port half of `from_profile`: hop ports when the spec has a range or a list, and the port to dial. */
  function Resolve(server: Text): Dial {
    var spec := PortSpec(server);
    if Hops(spec) && ParseUnion(spec).None? then InvalidRange
    else if PrimaryPort(spec).None? then InvalidPort
    else Dial(PrimaryPort(spec).value, if Hops(spec) then ParseUnion(spec) else None)
  }

  /** A server address that hops always dials a port of its own union, and a valid union never fails on the port. */
  lemma {:induction false} DialedPortIsHopPort(server: Text)
    ensures var r := Resolve(server);
            && (r.Dial? && r.hopPorts.Some? ==> Canonical(r.hopPorts.value) && Contains(r.hopPorts.value, r.port))
            && (r.InvalidPort? ==> !Hops(PortSpec(server)))
  {
    var spec := PortSpec(server);
    if Hops(spec) && ParseUnion(spec).Some? {
      PrimaryPortInUnion(spec);
      UnionCanonical(spec);
    }
  }

  lemma {:induction false} UnionCanonical(spec: Text)
    ensures ParseUnion(spec).Some? ==> Canonical(ParseUnion(spec).value)
  {
    if ParseUnion(spec).Some? && spec != ALL && spec != STAR {
      PartsProper(Split(spec, COMMA));
      NormalizeCorrect(ParseParts(Split(spec, COMMA)).value);
    }
  }
}
