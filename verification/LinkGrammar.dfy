/**
  What a share link means, for every text and not only for printed ones: which schemes are accepted, where
  a link is cut, what each part stands for, and what the printer writes letter by letter.
 */
module LinkGrammar {
  import opened Bytes
  import opened Ascii
  import opened Percent
  import opened ShareLink
  import Utf8
  import Unicode

  // ----- schemes -----

  /** The text spells the lower-case word, in any case. */
  predicate Spells(s: Text, word: string) {
    && |s| == |word|
    && forall i :: 0 <= i < |s| ==> s[i] == word[i] as int || ('a' <= word[i] <= 'z' && s[i] == word[i] as int - 32)
  }

  predicate SpellsScheme(s: Text) {
    Spells(s, "hysteria2") || Spells(s, "hy2")
  }

  function Url(scheme: Text, rest: Text): Text {
    scheme + Literal("://") + rest
  }

  lemma {:induction false} WordIs(s: Text, word: string, bytes: Text)
    requires |word| == |bytes| && forall i :: 0 <= i < |word| ==> bytes[i] == word[i] as int
    requires forall i :: 0 <= i < |word| ==> 'a' <= word[i] <= 'z' || '0' <= word[i] <= '9'
    ensures Spells(s, word) <==> EqIgnoreAsciiCase(s, bytes)
  {
    if EqIgnoreAsciiCase(s, bytes) {
      forall i | 0 <= i < |s|
        ensures s[i] == word[i] as int || ('a' <= word[i] <= 'z' && s[i] == word[i] as int - 32)
      {
        assert Lower(s[i]) == Lower(bytes[i]);
      }
    }
  }

  lemma {:induction false} SchemeWords(s: Text)
    ensures SpellsScheme(s) <==> EqIgnoreAsciiCase(s, HYSTERIA2) || EqIgnoreAsciiCase(s, HY2)
  {
    var long, short := "hysteria2", "hy2";
    assert long[0] == 'h' && long[1] == 'y' && long[2] == 's' && long[3] == 't' && long[4] == 'e';
    assert long[5] == 'r' && long[6] == 'i' && long[7] == 'a' && long[8] == '2';
    assert short[0] == 'h' && short[1] == 'y' && short[2] == '2';
    WordIs(s, long, HYSTERIA2);
    WordIs(s, short, HY2);
  }

  lemma {:induction false} SchemeHasNoColon(s: Text)
    requires SpellsScheme(s)
    ensures COLON !in s
  {
    var long, short := "hysteria2", "hy2";
    assert forall i :: 0 <= i < |long| ==> long[i] as int != 58 && long[i] as int != 90;
    assert forall i :: 0 <= i < |short| ==> short[i] as int != 58 && short[i] as int != 90;
  }

  lemma {:induction false} FoundSeparator(s: Text)
    requires FindSeparator(s).Some?
    ensures var i := FindSeparator(s).value; s[i..i + 3] == SEPARATOR
  {
    if s[..3] != SEPARATOR {
      FoundSeparator(s[1..]);
      var i := FindSeparator(s[1..]).value;
      assert s[i + 1..i + 4] == s[1..][i..i + 3];
    }
  }

  /** A link is accepted under exactly these schemes, and its rest is all that follows. */
  lemma {:induction false} SchemeIff(s: Text, rest: Text)
    ensures AfterScheme(s) == Some(rest) <==> exists scheme: Text :: SpellsScheme(scheme) && s == Url(scheme, rest)
  {
    if AfterScheme(s) == Some(rest) {
      AcceptedScheme(s, rest);
    }
    if scheme: Text :| SpellsScheme(scheme) && s == Url(scheme, rest) {
      SchemeAccepted(scheme, rest);
    }
  }

  lemma {:induction false} AcceptedScheme(s: Text, rest: Text)
    requires AfterScheme(s) == Some(rest)
    ensures exists scheme: Text :: SpellsScheme(scheme) && s == Url(scheme, rest)
  {
    SchemeText();
    var i := FindSeparator(s).value;
    FoundSeparator(s);
    SchemeWords(s[..i]);
    assert s == s[..i] + s[i..i + 3] + s[i + 3..];
    assert s == Url(s[..i], rest);
  }

  lemma {:induction false} SchemeAccepted(scheme: Text, rest: Text)
    requires SpellsScheme(scheme)
    ensures AfterScheme(Url(scheme, rest)) == Some(rest)
  {
    SchemeText();
    SchemeHasNoColon(scheme);
    FindFirstSeparator(scheme, rest);
    SchemeWords(scheme);
    var s := Url(scheme, rest);
    assert s[..|scheme|] == scheme && s[|scheme| + 3..] == rest;
  }

  /** Anything else is no link and has no name. */
  lemma {:induction false} OtherSchemesRefused(s: Text)
    requires forall scheme: Text, rest: Text :: s == Url(scheme, rest) ==> !SpellsScheme(scheme)
    ensures ParseUri(s) == None && NameFromUri(s) == None
  {
    if AfterScheme(s).Some? {
      SchemeIff(s, AfterScheme(s).value);
    }
  }

  // ----- parts -----

  /** A part behind its mark, if it is there. */
  function Marked(mark: byte, part: Option<Text>): Text {
    if part.Some? then [mark] + part.value else []
  }

  /** A link behind its scheme, cut into its parts. */
  datatype Link = Link(user: Option<Text>, host: Text, path: Text, query: Option<Text>, fragment: Option<Text>)
  {
    function Authority(): Text {
      (if user.Some? then user.value + [AT] else []) + host
    }

    function Text(): Text {
      Authority() + path + Marked(QUESTION, query) + Marked(HASH, fragment)
    }

    /** No part holds a mark that would end it; the host is free of `@`, so the last one ends the credential. */
    predicate WellCut() {
      && (user.Some? ==> HASH !in user.value && QUESTION !in user.value && SLASH !in user.value)
      && HASH !in host && QUESTION !in host && SLASH !in host && AT !in host
      && HASH !in path && QUESTION !in path && (path != [] ==> path[0] == SLASH)
      && (query.Some? ==> HASH !in query.value)
    }
  }

  /** One part up to a mark, and what is behind it. */
  lemma {:induction false} CutAt(s: Text, mark: byte) returns (front: Text, back: Option<Text>)
    ensures mark !in front && s == front + if back.Some? then [mark] + back.value else []
    ensures front <= s
  {
    var i := IndexOf(s, mark);
    front := s[..i];
    if i < |s| {
      back := Some(s[i + 1..]);
      assert s == front + ([mark] + s[i + 1..]);
    } else {
      back := None;
      assert s == front + [];
    }
  }

  lemma {:induction false} CutAuthority(s: Text) returns (user: Option<Text>, host: Text)
    ensures s == (if user.Some? then user.value + [AT] else []) + host && AT !in host
    ensures user.Some? ==> user.value <= s
    ensures forall b :: b in host ==> b in s
  {
    var at := LastIndexOf(s, AT);
    if at.None? {
      user, host := None, s;
      assert s == [] + s;
    } else {
      var i := at.value;
      user, host := Some(s[..i]), s[i + 1..];
      assert s == s[..i] + [AT] + s[i + 1..];
    }
  }

  /** Every rest of a link is made of such parts. */
  lemma {:induction false} EveryLinkIsCut(rest: Text) returns (l: Link)
    ensures l.WellCut() && l.Text() == rest
  {
    var link, fragment := CutAt(rest, HASH);
    var front, query := CutAt(link, QUESTION);
    var authority, behind := CutAt(front, SLASH);
    var user, host := CutAuthority(authority);
    var path := if behind.Some? then [SLASH] + behind.value else [];
    l := Link(user, host, path, query, fragment);
    assert l.Authority() == authority;
    assert front == authority + path;
    assert link == front + Marked(QUESTION, query);
    assert rest == link + Marked(HASH, fragment);
    PartsAreFree(rest, link, front, authority, path, query);
  }

  lemma {:induction false} PartsAreFree(
      rest: Text, link: Text, front: Text, authority: Text, path: Text, query: Option<Text>)
    requires HASH !in link && link == front + if query.Some? then [QUESTION] + query.value else []
    requires QUESTION !in front && front == authority + path && SLASH !in authority
    ensures HASH !in authority && QUESTION !in authority && HASH !in path && QUESTION !in path
    ensures query.Some? ==> HASH !in query.value
  {
    assert forall b :: b in front ==> b in link;
    assert forall b :: b in authority || b in path ==> b in front;
    if query.Some? {
      assert forall b :: b in query.value ==> b in link;
    }
  }

  const OBFS_KEY: Text := Literal("obfs")
  const PASSWORD_KEY: Text := Literal("obfs-password")
  const SNI_KEY: Text := Literal("sni")

  /** The value of a key in a query, read as empty when the key is missing. */
  function ValueOf(query: Option<Text>, key: Text): Text {
    var v := if query.Some? then Get(FormParse(query.value), key) else None;
    if v.Some? then v.value else []
  }

  /** What the parts of a link stand for. */
  function Meaning(l: Link): Option<Profile> {
    var auth := if l.user.Some? then Decode(l.user.value) else [];
    if l.host == [] || !Utf8.Valid(auth) then None
    else
      var obfs := ValueOf(l.query, OBFS_KEY);
      Some(Profile(l.host, auth, Tls(ValueOf(l.query, SNI_KEY)),
                   if obfs == [] then None else Some(Obfs(obfs, ValueOf(l.query, PASSWORD_KEY))),
                   false))
  }

  function NameMeaning(l: Link): Option<Text> {
    if l.fragment.None? || l.fragment.value == [] || !Utf8.Valid(Decode(l.fragment.value)) then None
    else Some(Decode(l.fragment.value))
  }

  lemma {:induction false} Keys()
    ensures OBFS_KEY == OBFS && PASSWORD_KEY == OBFS_PASSWORD && SNI_KEY == SNI
  {
    var o, p, s := "obfs", "obfs-password", "sni";
    assert o[0] == 'o' && o[1] == 'b' && o[2] == 'f' && o[3] == 's';
    assert p[0] == 'o' && p[1] == 'b' && p[2] == 'f' && p[3] == 's' && p[4] == '-' && p[5] == 'p' && p[6] == 'a';
    assert p[7] == 's' && p[8] == 's' && p[9] == 'w' && p[10] == 'o' && p[11] == 'r' && p[12] == 'd';
    assert s[0] == 's' && s[1] == 'n' && s[2] == 'i';
  }

  lemma {:induction false} AuthorityMeans(l: Link)
    requires l.WellCut()
    ensures ParseAuthority(l.Authority()) ==
            var auth := if l.user.Some? then Decode(l.user.value) else [];
            if l.host == [] || !Utf8.Valid(auth) then None else Some((l.host, auth))
  {
    var a := l.Authority();
    if l.user.Some? {
      var user := l.user.value;
      LastReadBack(user, l.host, AT);
      assert a == user + [AT] + l.host;
      assert a[..|user|] == user && a[|user| + 1..] == l.host;
    } else {
      assert a == l.host;
      LastAbsent(l.host, AT);
    }
  }

  /** Cutting at a mark finds the part behind it. */
  lemma {:induction false} CutFinds(front: Text, mark: byte, part: Option<Text>)
    requires mark !in front
    ensures var s := front + Marked(mark, part);
            && Before(s, mark) == front && IndexOf(s, mark) == |front| && s[..|front|] == front
            && (if part.Some? then |front| < |s| && s[|front| + 1..] == part.value else |s| == |front|)
  {
    BeforeReadBack(front, Marked(mark, part), mark);
    IndexOfConcat(front, Marked(mark, part), mark);
  }

  lemma {:induction false} FreeOfMarks(l: Link)
    requires l.WellCut()
    ensures SLASH !in l.Authority() && QUESTION !in l.Authority() + l.path
    ensures HASH !in l.Authority() + l.path + Marked(QUESTION, l.query)
  {
  }

  /** The cuts find the parts again. */
  lemma {:induction false} CutsFindParts(l: Link)
    requires l.WellCut()
    ensures var front := l.Authority() + l.path;
            var link := front + Marked(QUESTION, l.query);
            && Before(l.Text(), HASH) == link
            && Before(link, QUESTION) == front && Before(front, SLASH) == l.Authority()
            && QueryPairs(link) == if l.query.Some? then FormParse(l.query.value) else []
  {
    var front := l.Authority() + l.path;
    FreeOfMarks(l);
    CutFinds(front + Marked(QUESTION, l.query), HASH, l.fragment);
    CutFinds(front, QUESTION, l.query);
    BeforeReadBack(l.Authority(), l.path, SLASH);
  }

  /** Under either scheme, in any case, every link parses to what its parts stand for. */
  lemma {:induction false} LinkMeans(scheme: Text, l: Link)
    requires SpellsScheme(scheme) && l.WellCut()
    ensures ParseUri(Url(scheme, l.Text())) == Meaning(l)
  {
    SchemeIff(Url(scheme, l.Text()), l.Text());
    CutsFindParts(l);
    AuthorityMeans(l);
    Keys();
    var pairs := if l.query.Some? then FormParse(l.query.value) else [];
    QueryMeans(pairs, l.query, l.host, if l.user.Some? then Decode(l.user.value) else []);
  }

  lemma {:induction false} QueryMeans(pairs: seq<Pair>, query: Option<Text>, host: Text, auth: Text)
    requires pairs == if query.Some? then FormParse(query.value) else []
    ensures var obfs := ValueOf(query, OBFS_KEY);
            ProfileOf(host, auth, pairs) ==
            Profile(host, auth, Tls(ValueOf(query, SNI_KEY)),
                    if obfs == [] then None else Some(Obfs(obfs, ValueOf(query, PASSWORD_KEY))),
                    false)
  {
    Keys();
  }

  /** And its name is what its fragment stands for. */
  lemma {:induction false} LinkNameMeans(scheme: Text, l: Link)
    requires SpellsScheme(scheme) && l.WellCut()
    ensures NameFromUri(Url(scheme, l.Text())) == NameMeaning(l)
  {
    SchemeIff(Url(scheme, l.Text()), l.Text());
    FragmentMeans(l);
  }

  lemma {:induction false} FragmentMeans(l: Link)
    requires l.WellCut()
    ensures var i := IndexOf(l.Text(), HASH);
            if l.fragment.None? || l.fragment.value == [] then i >= |l.Text()| - 1
            else i < |l.Text()| - 1 && l.Text()[i + 1..] == l.fragment.value
  {
    FreeOfMarks(l);
    CutFinds(l.Authority() + l.path + Marked(QUESTION, l.query), HASH, l.fragment);
  }

  // ----- what the printer writes -----

  /** Characters that no encoder touches. */
  predicate Untouched(s: Text) {
    forall i :: 0 <= i < |s| ==> LeftAlone(Userinfo, s[i]) && LeftAlone(Form, s[i]) && LeftAlone(Fragment, s[i])
  }

  lemma {:induction false} EncodeUntouched(set_: EncodeSet, s: Text)
    requires Untouched(s)
    ensures Encode(set_, s) == s
  {
    if s != [] {
      assert s == [s[0]] + s[1..];
      EncodesAs(set_, s[0], s[1..]);
      EncodeUntouched(set_, s[1..]);
    }
  }

  /** A letter, a digit, a dash, a dot or an underscore is neither white space nor part of it. */
  lemma {:induction false} PrintableMarks(b: byte)
    requires LeftAlone(Userinfo, b)
    ensures 33 <= b < 0x80 && b != COLON
  {
    Marks(b);
  }

  lemma {:induction false} TrimUntouched(s: Text)
    requires Untouched(s)
    ensures Utf8.Trim(s) == s && COLON !in s
  {
    forall i | 0 <= i < |s|
      ensures 33 <= s[i] < 0x80 && s[i] != COLON
    {
      PrintableMarks(s[i]);
    }
    PrintableTrimmed(s);
    Unicode.TrimKeeps(s);
  }

  lemma {:induction false} PrintableTrimmed(s: Text)
    requires forall i :: 0 <= i < |s| ==> 33 <= s[i] < 0x80
    ensures Unicode.Trimmed(s)
  {
    forall n: nat | n <= |s|
      ensures !Utf8.WhiteSpace(s[..n]) && !Utf8.WhiteSpace(s[|s| - n..])
    {
      NotWhiteSpace(s[..n]);
      NotWhiteSpace(s[|s| - n..]);
    }
  }

  lemma {:induction false} NotWhiteSpace(w: Text)
    requires forall i :: 0 <= i < |w| ==> 33 <= w[i] < 0x80
    ensures !Utf8.WhiteSpace(w)
  {
  }

  /** A credential's halves are escaped on their own and the first colon between them is kept. */
  lemma {:induction false} CredentialPrints(user: Text, pass: Text)
    requires COLON !in user
    ensures EncodeUserinfo(user + ([COLON] + pass)) == Encode(Userinfo, user) + [COLON] + Encode(Userinfo, pass)
  {
    var auth := user + ([COLON] + pass);
    IndexOfConcat(user, [COLON] + pass, COLON);
    HalvesAround(user, COLON, pass);
    assert IndexOf(auth, COLON) < |auth|;
  }

  lemma {:induction false} HalvesAround(a: Text, c: byte, b: Text)
    ensures var s := a + ([c] + b); s[..|a|] == a && s[|a| + 1..] == b
  {
  }

  /** `key=value`, as it stands. */
  function Field(key: Text, value: Text): Text {
    key + [EQUALS] + value
  }

  lemma {:induction false} FieldPrints(key: Text, value: Text)
    requires Untouched(key) && Untouched(value)
    ensures FormPair(Pair(key, value)) == Field(key, value)
  {
    EncodeUntouched(Form, key);
    EncodeUntouched(Form, value);
  }

  /** The query as it reads: keys in alphabetical order, only those that say something. */
  function QueryShown(p: Profile): Text {
    var obfs := if p.obfs.None? then []
                else Field(OBFS_KEY, p.obfs.value.obfsType) + [AMPERSAND] + Field(PASSWORD_KEY, p.obfs.value.password);
    var sni := if p.tls.sni == [] then [] else Field(SNI_KEY, p.tls.sni);
    if obfs == [] || sni == [] then obfs + sni else obfs + [AMPERSAND] + sni
  }

  /** A link as it reads when nothing in it needs escaping. */
  function Shown(p: Profile, name: Text): Text {
    (if p.auth == [] then [] else p.auth + [AT]) + p.server + [SLASH]
    + (if QueryShown(p) == [] then [] else [QUESTION] + QueryShown(p))
    + (if name == [] then [] else [HASH] + name)
  }

  predicate UntouchedProfile(p: Profile) {
    && Untouched(p.auth) && Untouched(p.tls.sni)
    && (p.obfs.Some? ==> Untouched(p.obfs.value.obfsType) && Untouched(p.obfs.value.password))
  }

  lemma {:induction false} KeysUntouched()
    ensures Untouched(OBFS) && Untouched(OBFS_PASSWORD) && Untouched(SNI)
  {
    forall b: byte | b == 45
      ensures LeftAlone(Userinfo, b) && LeftAlone(Form, b) && LeftAlone(Fragment, b)
    {
      Marks(b);
      FragmentMarks(b);
    }
    forall b: byte | 97 <= b <= 122
      ensures LeftAlone(Userinfo, b) && LeftAlone(Form, b) && LeftAlone(Fragment, b)
    {
      FragmentMarks(b);
    }
  }

  lemma {:induction false} ObfsSerializes(p: Profile)
    requires UntouchedProfile(p)
    ensures Serialize(ObfsPairs(p)) ==
            if p.obfs.None? then []
            else Field(OBFS_KEY, p.obfs.value.obfsType) + [AMPERSAND] + Field(PASSWORD_KEY, p.obfs.value.password)
  {
    Keys();
    KeysUntouched();
    if p.obfs.Some? {
      var a, b := Pair(OBFS, p.obfs.value.obfsType), Pair(OBFS_PASSWORD, p.obfs.value.password);
      FieldPrints(OBFS, a.value);
      FieldPrints(OBFS_PASSWORD, b.value);
      TwoSerialize(a, b);
    }
  }

  lemma {:induction false} TwoSerialize(a: Pair, b: Pair)
    ensures Serialize([a, b]) == FormPair(a) + [AMPERSAND] + FormPair(b)
  {
    SerializeAppend([], a);
    SerializeAppend([a], b);
    assert [] + [a] == [a] && [a] + [b] == [a, b];
  }

  lemma {:induction false} QueryPrints(p: Profile)
    requires UntouchedProfile(p)
    ensures Query(p) == QueryShown(p)
  {
    ObfsSerializes(p);
    if p.tls.sni != [] {
      Keys();
      KeysUntouched();
      FieldPrints(SNI, p.tls.sni);
      SerializeAppend(ObfsPairs(p), Pair(SNI, p.tls.sni));
    }
  }

  /** A link with nothing to escape reads as one would write it by hand. */
  lemma {:induction false} PrintsAsShown(p: Profile, name: Text)
    requires UntouchedProfile(p) && Untouched(name)
    ensures ToUri(p, Some(name)) == Url(Literal("hysteria2"), Shown(p, name))
    ensures ToUri(p, None) == Url(Literal("hysteria2"), Shown(p, []))
  {
    SchemeText();
    QueryPrints(p);
    UserPrints(p);
    NamePrints(name);
  }

  lemma {:induction false} UserPrints(p: Profile)
    requires Untouched(p.auth)
    ensures UserPart(p) == if p.auth == [] then [] else p.auth + [AT]
  {
    TrimUntouched(p.auth);
    EncodeUntouched(Userinfo, p.auth);
    assert EncodeUserinfo(p.auth) == Encode(Userinfo, p.auth);
  }

  lemma {:induction false} NamePrints(name: Text)
    requires Untouched(name)
    ensures NamePart(Some(name)) == if name == [] then [] else [HASH] + name
  {
    TrimUntouched(name);
    EncodeUntouched(Fragment, name);
  }

  /** A name of nothing but white space is not printed at all. */
  lemma {:induction false} BlankNamePrints(p: Profile, blanks: seq<seq<byte>>)
    requires Unicode.AllSpaces(blanks)
    ensures ToUri(p, Some(Unicode.Flat(blanks))) == ToUri(p, None)
  {
    Unicode.BlankTrims(blanks);
  }

  lemma {:induction false} SchemeText()
    ensures Literal("hysteria2") == HYSTERIA2 && Literal("://") == SEPARATOR
  {
    var long := "hysteria2";
    assert long[0] == 'h' && long[1] == 'y' && long[2] == 's' && long[3] == 't' && long[4] == 'e';
    assert long[5] == 'r' && long[6] == 'i' && long[7] == 'a' && long[8] == '2';
  }
}
