/** `hysteria2://` share links: parsing into a profile, printing from one, and the name in the fragment. */
module ShareLink {
  import opened Bytes
  import opened Ascii
  import opened Percent
  import Utf8

  datatype Obfs = Obfs(obfsType: Text, password: Text)
  datatype Tls = Tls(sni: Text)
  datatype Profile = Profile(server: Text, auth: Text, tls: Tls, obfs: Option<Obfs>, fastOpen: bool)

  const HYSTERIA2: Text := [104, 121, 115, 116, 101, 114, 105, 97, 50]
  const HY2: Text := [104, 121, 50]
  const SEPARATOR: Text := [COLON, SLASH, SLASH]
  const OBFS: Text := [111, 98, 102, 115]
  const OBFS_PASSWORD: Text := [111, 98, 102, 115, 45, 112, 97, 115, 115, 119, 111, 114, 100]
  const SNI: Text := [115, 110, 105]

  function Lower(b: byte): byte {
    if 65 <= b <= 90 then b + 32 else b
  }

  predicate EqIgnoreAsciiCase(a: Text, b: Text) {
    |a| == |b| && forall i :: 0 <= i < |a| ==> Lower(a[i]) == Lower(b[i])
  }

  // ----- splitting -----

  /** Position of the first `://`, if any. */
  function FindSeparator(s: Text): (r: Option<nat>)
    ensures r.Some? ==> r.value + 3 <= |s|
  {
    if |s| < 3 then None
    else if s[..3] == SEPARATOR then Some(0)
    else
      match FindSeparator(s[1..])
      case None => None
      case Some(i) => Some(i + 1)
  }

  /** The part of a link after a scheme this client accepts. */
  function AfterScheme(s: Text): Option<Text> {
    match FindSeparator(s)
    case None => None
    case Some(i) =>
      if EqIgnoreAsciiCase(s[..i], HYSTERIA2) || EqIgnoreAsciiCase(s[..i], HY2)
      then Some(s[i + 3..]) else None
  }

  /** Everything before the first c. */
  function Before(s: Text, c: byte): (t: Text)
    ensures c !in t && t <= s
  {
    s[..IndexOf(s, c)]
  }

  /** Position of the last c, if any. */
  function LastIndexOf(s: Text, c: byte): (r: Option<nat>)
    ensures r.None? ==> c !in s
    ensures r.Some? ==> r.value < |s| && s[r.value] == c && forall j :: r.value < j < |s| ==> s[j] != c
  {
    if s == [] then None
    else
      match LastIndexOf(s[1..], c)
      case Some(i) => Some(i + 1)
      case None => if s[0] == c then Some(0) else None
  }

  // ----- parsing -----

  /** `percent_decode`: decoded bytes must be text. */
  function DecodeText(s: Text): (r: Option<Text>)
    ensures r.Some? ==> Utf8.Valid(r.value)
  {
    if Utf8.Valid(Decode(s)) then Some(Decode(s)) else None
  }

  function NonEmpty(o: Option<Text>): Option<Text> {
    if o.Some? && o.value != [] then o else None
  }

  function ProfileOf(server: Text, auth: Text, pairs: seq<Pair>): Profile {
    var obfs := NonEmpty(Get(pairs, OBFS));
    var sni := NonEmpty(Get(pairs, SNI));
    var password := Get(pairs, OBFS_PASSWORD);
    Profile(server, auth,
            Tls(if sni.Some? then sni.value else []),
            if obfs.Some? then Some(Obfs(obfs.value, if password.Some? then password.value else [])) else None,
            false)
  }

  /** Host and credential of an authority; the credential precedes the last `@`. */
  function ParseAuthority(authority: Text): Option<(Text, Text)> {
    match LastIndexOf(authority, AT)
    case None => if authority == [] then None else Some((authority, []))
    case Some(i) =>
      var auth := DecodeText(authority[..i]);
      if auth.None? || i + 1 == |authority| then None
      else Some((authority[i + 1..], auth.value))
  }

  /** The query part of a link without its fragment; no query reads like an empty one. */
  function QueryText(s: Text): Text {
    var i := IndexOf(s, QUESTION);
    if i < |s| then s[i + 1..] else []
  }

  function QueryPairs(s: Text): seq<Pair> {
    FormParse(QueryText(s))
  }

  /** `parse_uri`. */
  function ParseUri(s: Text): Option<Profile> {
    match AfterScheme(s)
    case None => None
    case Some(after) =>
      var link := Before(after, HASH);
      match ParseAuthority(Before(Before(link, QUESTION), SLASH))
      case None => None
      case Some((server, auth)) => Some(ProfileOf(server, auth, QueryPairs(link)))
  }

  /** `name_from_uri`. */
  function NameFromUri(s: Text): Option<Text> {
    match AfterScheme(s)
    case None => None
    case Some(after) =>
      var i := IndexOf(after, HASH);
      if i >= |after| - 1 then None else DecodeText(after[i + 1..])
  }

  // ----- printing -----

  function EncodeUserinfo(auth: Text): Text {
    var i := IndexOf(auth, COLON);
    if i < |auth| then Encode(Userinfo, auth[..i]) + [COLON] + Encode(Userinfo, auth[i + 1..])
    else Encode(Userinfo, auth)
  }

  /** The pairs the printer appends, in order. */
  function ObfsPairs(p: Profile): seq<Pair> {
    match p.obfs
    case None => []
    case Some(o) => [Pair(OBFS, o.obfsType), Pair(OBFS_PASSWORD, o.password)]
  }

  function Pairs(p: Profile): seq<Pair> {
    if p.tls.sni == [] then ObfsPairs(p) else ObfsPairs(p) + [Pair(SNI, p.tls.sni)]
  }

  function Query(p: Profile): Text {
    Serialize(Pairs(p))
  }

  function UserPart(p: Profile): Text {
    if p.auth == [] then [] else EncodeUserinfo(p.auth) + [AT]
  }

  function QueryPart(p: Profile): Text {
    if Query(p) == [] then [] else [QUESTION] + Query(p)
  }

  function NamePart(name: Option<Text>): Text {
    if name.None? || Utf8.Trim(name.value) == [] then []
    else [HASH] + Encode(Fragment, Utf8.Trim(name.value))
  }

  /** `to_uri_with_name`. */
  function ToUri(p: Profile, name: Option<Text>): Text {
    HYSTERIA2 + SEPARATOR + (UserPart(p) + p.server + [SLASH] + QueryPart(p) + NamePart(name))
  }

  // ----- which profiles a link can carry -----

  predicate Linkable(p: Profile) {
    && p.server != []
    && HASH !in p.server && QUESTION !in p.server && SLASH !in p.server && AT !in p.server
    && Utf8.Valid(p.auth) && Utf8.Valid(p.tls.sni)
    && (p.obfs.Some? ==> p.obfs.value.obfsType != []
                         && Utf8.Valid(p.obfs.value.obfsType) && Utf8.Valid(p.obfs.value.password))
    && !p.fastOpen
  }

  lemma {:induction false} ProfileOfLinkable(server: Text, auth: Text, pairs: seq<Pair>)
    requires server != [] && HASH !in server && QUESTION !in server && SLASH !in server && AT !in server
    requires Utf8.Valid(auth)
    requires YieldsText(pairs, OBFS) && YieldsText(pairs, OBFS_PASSWORD) && YieldsText(pairs, SNI)
    ensures Linkable(ProfileOf(server, auth, pairs))
  {
  }

  predicate PlainHost(server: Text) {
    HASH !in server && QUESTION !in server && SLASH !in server
  }

  lemma {:induction false} HostOfAuthority(authority: Text)
    requires PlainHost(authority) && ParseAuthority(authority).Some?
    ensures var (server, auth) := ParseAuthority(authority).value;
            server != [] && PlainHost(server) && AT !in server && Utf8.Valid(auth)
  {
    var (server, auth) := ParseAuthority(authority).value;
    assert server == authority[|authority| - |server|..];
  }

  lemma {:induction false} AuthorityIsPlain(after: Text)
    ensures PlainHost(Before(Before(Before(after, HASH), QUESTION), SLASH))
  {
    var link := Before(after, HASH);
    var front := Before(link, QUESTION);
    assert HASH !in front;
  }

  /** Only such profiles come out of a link. */
  lemma {:induction false} ParsedIsLinkable(s: Text)
    ensures ParseUri(s).Some? ==> Linkable(ParseUri(s).value)
  {
    if ParseUri(s).Some? {
      var link := Before(AfterScheme(s).value, HASH);
      AuthorityIsPlain(AfterScheme(s).value);
      var authority := Before(Before(link, QUESTION), SLASH);
      HostOfAuthority(authority);
      var (server, auth) := ParseAuthority(authority).value;
      GetIsText(QueryText(link), OBFS);
      GetIsText(QueryText(link), OBFS_PASSWORD);
      GetIsText(QueryText(link), SNI);
      ProfileOfLinkable(server, auth, QueryPairs(link));
    }
  }

  // ----- reading back what was printed -----

  lemma {:induction false} FindFirstSeparator(a: Text, b: Text)
    requires COLON !in a
    ensures FindSeparator(a + SEPARATOR + b) == Some(|a|)
  {
    var s := a + SEPARATOR + b;
    if a == [] {
      assert s[..3] == SEPARATOR;
    } else {
      FindFirstSeparator(a[1..], b);
      assert s[1..] == a[1..] + SEPARATOR + b;
      assert s[..3][0] == a[0];
    }
  }

  lemma {:induction false} SchemeReadBack(rest: Text)
    ensures AfterScheme(HYSTERIA2 + SEPARATOR + rest) == Some(rest)
  {
    FindFirstSeparator(HYSTERIA2, rest);
    var s := HYSTERIA2 + SEPARATOR + rest;
    assert s[..9] == HYSTERIA2 && s[12..] == rest;
  }

  lemma {:induction false} BeforeReadBack(a: Text, b: Text, c: byte)
    requires c !in a && (b == [] || b[0] == c)
    ensures Before(a + b, c) == a
  {
    IndexOfConcat(a, b, c);
    assert (a + b)[..|a|] == a;
  }

  lemma {:induction false} LastAbsent(s: Text, c: byte)
    requires c !in s
    ensures LastIndexOf(s, c) == None
  {
    if s != [] {
      LastAbsent(s[1..], c);
    }
  }

  lemma {:induction false} LastReadBack(a: Text, b: Text, c: byte)
    requires c !in b
    ensures LastIndexOf(a + [c] + b, c) == Some(|a|)
  {
    var s := a + [c] + b;
    if a == [] {
      assert s[1..] == b;
      LastAbsent(b, c);
    } else {
      LastReadBack(a[1..], b, c);
      assert s[1..] == a[1..] + [c] + b;
    }
  }

  lemma {:induction false} DecodeWhole(set_: EncodeSet, s: Text)
    requires !set_.Form?
    ensures Decode(Encode(set_, s)) == s
  {
    DecodeEncode(set_, s, []);
    assert Encode(set_, s) + [] == Encode(set_, s);
    assert s + [] == s;
  }

  lemma {:induction false} DecodeColon(v: Text)
    ensures Decode([COLON] + v) == [COLON] + Decode(v)
  {
    assert ([COLON] + v)[1..] == v;
  }

  lemma {:induction false} TwoHalvesReadBack(user: Text, pass: Text)
    ensures Decode(Encode(Userinfo, user) + [COLON] + Encode(Userinfo, pass)) == user + [COLON] + pass
  {
    var u, v := Encode(Userinfo, user), Encode(Userinfo, pass);
    Associate(u, [COLON], v);
    DecodeEncode(Userinfo, user, [COLON] + v);
    DecodeColon(v);
    DecodeWhole(Userinfo, pass);
    Associate(user, [COLON], pass);
  }

  /** Escaping each half around the first colon loses nothing. */
  lemma {:induction false} UserinfoReadBack(auth: Text)
    ensures Decode(EncodeUserinfo(auth)) == auth
  {
    var i := IndexOf(auth, COLON);
    if i < |auth| {
      TwoHalvesReadBack(auth[..i], auth[i + 1..]);
      assert auth == auth[..i] + [COLON] + auth[i + 1..];
    } else {
      DecodeWhole(Userinfo, auth);
    }
  }

  lemma {:induction false} UserPartAlphabet(p: Profile)
    ensures HASH !in UserPart(p) && QUESTION !in UserPart(p) && SLASH !in UserPart(p)
  {
    var i := IndexOf(p.auth, COLON);
    EncodedAlphabet(Userinfo, p.auth);
    if i < |p.auth| {
      EncodedAlphabet(Userinfo, p.auth[..i]);
      EncodedAlphabet(Userinfo, p.auth[i + 1..]);
    }
  }

  lemma {:induction false} FormPairAlphabet(p: Pair)
    ensures HASH !in FormPair(p)
  {
    EncodedAlphabet(Form, p.key);
    EncodedAlphabet(Form, p.value);
  }

  lemma {:induction false} SerializeAlphabet(pairs: seq<Pair>)
    ensures HASH !in Serialize(pairs)
  {
    if pairs != [] {
      SerializeAlphabet(pairs[..|pairs| - 1]);
      FormPairAlphabet(pairs[|pairs| - 1]);
    }
  }

  lemma {:induction false} AuthorityReadBack(p: Profile)
    requires p.server != [] && AT !in p.server && Utf8.Valid(p.auth)
    ensures ParseAuthority(UserPart(p) + p.server) == Some((p.server, p.auth))
  {
    var authority := UserPart(p) + p.server;
    if p.auth == [] {
      assert authority == p.server;
    } else {
      var user := EncodeUserinfo(p.auth);
      assert authority == user + [AT] + p.server;
      LastReadBack(user, p.server, AT);
      assert authority[..|user|] == user && authority[|user| + 1..] == p.server;
      UserinfoReadBack(p.auth);
    }
  }

  /** ASCII keys and text values. */
  predicate PlainPairs(pairs: seq<Pair>) {
    forall i :: 0 <= i < |pairs| ==> Utf8.Ascii(pairs[i].key) && Utf8.Valid(pairs[i].value)
  }

  lemma {:induction false} PlainPairsReadBack(pairs: seq<Pair>)
    requires PlainPairs(pairs)
    ensures FormParse(Serialize(pairs)) == pairs
  {
    forall i | 0 <= i < |pairs|
      ensures ValidPair(pairs[i])
    {
      Utf8.AsciiValid(pairs[i].key);
    }
    SerializedParses(pairs);
  }

  lemma {:induction false} KeysAreAscii()
    ensures Utf8.Ascii(OBFS) && Utf8.Ascii(OBFS_PASSWORD) && Utf8.Ascii(SNI)
  {
  }

  lemma {:induction false} PairsArePlain(p: Profile)
    requires Linkable(p)
    ensures PlainPairs(Pairs(p))
  {
    KeysAreAscii();
  }

  lemma {:induction false} QueryReadBack(p: Profile)
    requires Linkable(p)
    ensures FormParse(Query(p)) == Pairs(p)
  {
    PairsArePlain(p);
    PlainPairsReadBack(Pairs(p));
  }

  lemma {:induction false} DistinctKeys()
    ensures OBFS != OBFS_PASSWORD && OBFS != SNI && OBFS_PASSWORD != SNI
  {
    assert |OBFS| != |OBFS_PASSWORD| && |OBFS| != |SNI| && |OBFS_PASSWORD| != |SNI|;
  }

  lemma {:induction false} GetObfsPairs(p: Profile, key: Text)
    ensures Get(ObfsPairs(p), key) ==
            if p.obfs.None? then None
            else if key == OBFS then Some(p.obfs.value.obfsType)
            else if key == OBFS_PASSWORD then Some(p.obfs.value.password)
            else None
  {
    if p.obfs.Some? {
      var first, second := Pair(OBFS, p.obfs.value.obfsType), Pair(OBFS_PASSWORD, p.obfs.value.password);
      GetAppend([], first, key);
      GetAppend([first], second, key);
      assert [] + [first] == [first] && [first] + [second] == [first, second];
    }
  }

  lemma {:induction false} GetPairs(p: Profile)
    ensures Get(Pairs(p), OBFS) == if p.obfs.Some? then Some(p.obfs.value.obfsType) else None
    ensures Get(Pairs(p), OBFS_PASSWORD) == if p.obfs.Some? then Some(p.obfs.value.password) else None
    ensures Get(Pairs(p), SNI) == if p.tls.sni == [] then None else Some(p.tls.sni)
  {
    DistinctKeys();
    forall key: Text
      ensures Get(Pairs(p), key) ==
              if Get(ObfsPairs(p), key).Some? || p.tls.sni == [] then Get(ObfsPairs(p), key)
              else if key == SNI then Some(p.tls.sni) else None
    {
      GetAppend(ObfsPairs(p), Pair(SNI, p.tls.sni), key);
    }
    GetObfsPairs(p, OBFS);
    GetObfsPairs(p, OBFS_PASSWORD);
    GetObfsPairs(p, SNI);
  }

  lemma {:induction false} ProfileReadBack(p: Profile)
    requires Linkable(p)
    ensures ProfileOf(p.server, p.auth, Pairs(p)) == p
  {
    GetPairs(p);
  }

  lemma {:induction false} QueryPairsReadBack(front: Text, query: Text)
    requires QUESTION !in front
    ensures QueryPairs(front + if query == [] then [] else [QUESTION] + query) == FormParse(query)
  {
    var part := if query == [] then [] else [QUESTION] + query;
    IndexOfConcat(front, part, QUESTION);
    if query != [] {
      assert (front + part)[|front| + 1..] == query;
    }
  }

  /** Cutting a link at its delimiters finds the parts it was put together from. */
  lemma {:induction false} PartsReadBack(user: Text, server: Text, query: Text, name: Text)
    requires HASH !in user && QUESTION !in user && SLASH !in user
    requires HASH !in server && QUESTION !in server && SLASH !in server
    requires HASH !in query && (query == [] || query[0] == QUESTION)
    requires name == [] || name[0] == HASH
    ensures var link := user + server + [SLASH] + query;
            && Before(link + name, HASH) == link
            && IndexOf(link + name, HASH) == |link|
            && Before(link, QUESTION) == user + server + [SLASH]
            && Before(user + server + [SLASH], SLASH) == user + server
  {
    var link := user + server + [SLASH] + query;
    BeforeReadBack(link, name, HASH);
    IndexOfConcat(link, name, HASH);
    BeforeReadBack(user + server + [SLASH], query, QUESTION);
    BeforeReadBack(user + server, [SLASH], SLASH);
  }

  lemma {:induction false} LinkReadBack(p: Profile, name: Option<Text>)
    requires Linkable(p)
    ensures var link := UserPart(p) + p.server + [SLASH] + QueryPart(p);
            && AfterScheme(ToUri(p, name)) == Some(link + NamePart(name))
            && Before(link + NamePart(name), HASH) == link
            && IndexOf(link + NamePart(name), HASH) == |link|
            && Before(Before(link, QUESTION), SLASH) == UserPart(p) + p.server
            && QueryPairs(link) == Pairs(p)
  {
    var front := UserPart(p) + p.server + [SLASH];
    SchemeReadBack(front + QueryPart(p) + NamePart(name));
    UserPartAlphabet(p);
    SerializeAlphabet(Pairs(p));
    PartsReadBack(UserPart(p), p.server, QueryPart(p), NamePart(name));
    QueryReadBack(p);
    QueryPairsReadBack(front, Query(p));
  }

  lemma {:induction false} PrintedParses(p: Profile, name: Option<Text>)
    requires Linkable(p)
    ensures ParseUri(ToUri(p, name)) == Some(p)
  {
    LinkReadBack(p, name);
    AuthorityReadBack(p);
    ProfileReadBack(p);
  }

  /** A profile survives printing and parsing, under any name, exactly when a link can carry it. */
  lemma {:induction false} RoundTripIff(p: Profile, name: Option<Text>)
    ensures ParseUri(ToUri(p, name)) == Some(p) <==> Linkable(p)
  {
    if Linkable(p) {
      PrintedParses(p, name);
    }
    ParsedIsLinkable(ToUri(p, name));
  }

  /** A profile no link can carry: fast open is not part of one, and comes back switched off. */
  lemma {:induction false} FastOpenIsLost(name: Option<Text>)
    ensures var p := Profile([104], [], Tls([]), None, true);
            !Linkable(p) && ParseUri(ToUri(p, name)) == Some(p.(fastOpen := false)) != Some(p)
  {
    var p := Profile([104], [], Tls([]), None, true);
    var q := p.(fastOpen := false);
    assert ToUri(p, name) == ToUri(q, name);
    assert Utf8.Valid([]);
    PrintedParses(q, name);
  }

  /** Every accepted link has a normal form: printing what it means, under any name, means the same. */
  lemma {:induction false} NormalForm(s: Text, name: Option<Text>)
    requires ParseUri(s).Some?
    ensures ParseUri(ToUri(ParseUri(s).value, name)) == ParseUri(s)
  {
    ParsedIsLinkable(s);
    PrintedParses(ParseUri(s).value, name);
  }

  /** The name comes back trimmed, and a blank name leaves none. */
  lemma {:induction false} NameReadBack(p: Profile, name: Option<Text>)
    requires Linkable(p) && (name.Some? ==> Utf8.Valid(name.value))
    ensures NameFromUri(ToUri(p, name)) ==
            if name.Some? && Utf8.Trim(name.value) != [] then Some(Utf8.Trim(name.value)) else None
  {
    LinkReadBack(p, name);
    if name.Some? {
      Utf8.TrimValid(name.value);
    }
    FragmentOf(ToUri(p, name), UserPart(p) + p.server + [SLASH] + QueryPart(p),
               if name.Some? then Utf8.Trim(name.value) else []);
  }

  lemma {:induction false} FragmentOf(uri: Text, link: Text, n: Text)
    requires Utf8.Valid(n)
    requires var part := if n == [] then [] else [HASH] + Encode(Fragment, n);
             AfterScheme(uri) == Some(link + part) && IndexOf(link + part, HASH) == |link|
    ensures NameFromUri(uri) == if n == [] then None else Some(n)
  {
    if n != [] {
      FragmentReadBack(link, n);
    }
  }

  lemma {:induction false} FragmentReadBack(link: Text, n: Text)
    requires n != []
    ensures var e := Encode(Fragment, n);
            e != [] && Decode(e) == n && (link + ([HASH] + e))[|link| + 1..] == e
  {
    DecodeWhole(Fragment, n);
  }

  /** One `append_pair` on the serializer. */
  method Append(out: Text, ghost before: seq<Pair>, p: Pair) returns (grown: Text, ghost pairs: seq<Pair>)
    requires out == Serialize(before)
    ensures pairs == before + [p] && grown == Serialize(pairs)
  {
    SerializeAppend(before, p);
    grown := AppendPair(out, p);
    pairs := before + [p];
  }

  /** The query serializer, grown pair by pair. */
  method SerializeQuery(p: Profile) returns (query: Text)
    ensures query == Query(p)
  {
    query := [];
    ghost var pairs: seq<Pair> := [];
    if p.obfs.Some? {
      query, pairs := Append(query, pairs, Pair(OBFS, p.obfs.value.obfsType));
      query, pairs := Append(query, pairs, Pair(OBFS_PASSWORD, p.obfs.value.password));
    }
    assert pairs == ObfsPairs(p);
    if p.tls.sni != [] {
      query, pairs := Append(query, pairs, Pair(SNI, p.tls.sni));
    }
  }

  /** `to_uri_with_name` as it is written. */
  method ToUriWithName(p: Profile, name: Option<Text>) returns (uri: Text)
    ensures uri == ToUri(p, name)
  {
    var query := SerializeQuery(p);
    if query != [] {
      query := [QUESTION] + query;
    }
    assert query == QueryPart(p);
    var userinfo := if p.auth == [] then [] else EncodeUserinfo(p.auth) + [AT];
    var fragment := NamePart(name);
    uri := HYSTERIA2 + SEPARATOR + (userinfo + p.server + [SLASH] + query + fragment);
  }
}
