/**
  The profile store: a metadata document on disk and the links in a secure store, both of which
  can fail at any call, and a process that can stop between any two writes.
 */
module Store {
  import opened Bytes
  import opened Ascii
  import opened Percent
  import opened ShareLink
  import Utf8
  import Unicode

  type Id = Text

  datatype Entry = Entry(id: Id, name: Text, createdAt: nat)

  const SCHEMA_VERSION: nat := 1

  datatype Document = Absent | Document(version: nat, entries: seq<Entry>) | Garbage

  datatype StoreError = Io | Serde | Secure | Clock | UnsupportedSchema(version: nat)
  datatype Result<+T> = Ok(value: T) | Err(error: StoreError)

  // ----- what survives a crash -----

  /** Everything durable: the document and the secrets. */
  datatype Image = Image(doc: Document, secrets: map<Id, Profile>)

  function Listed(doc: Document): seq<Entry> {
    if doc.Document? then doc.entries else []
  }

  predicate DistinctIds(entries: seq<Entry>) {
    forall i, j :: 0 <= i < j < |entries| ==> entries[i].id != entries[j].id
  }

  predicate Backed(entries: seq<Entry>, secrets: map<Id, Profile>) {
    forall i :: 0 <= i < |entries| ==> entries[i].id in secrets
  }

  /** The document opens, and every profile it lists has its link stored. */
  predicate Recoverable(im: Image) {
    && !im.doc.Garbage? && (im.doc.Document? ==> im.doc.version <= SCHEMA_VERSION)
    && DistinctIds(Listed(im.doc)) && Backed(Listed(im.doc), im.secrets)
  }

  /** The two backings. Every call may fail; only reads of a `readable` store always succeed. */
  class Backing {
    var doc: Document
    var secrets: map<Id, Profile>
    const readable: bool
    /** Every durable state there has been: where a crash could have left things. */
    ghost var images: seq<Image>
    /** How many writes and clock readings have failed. */
    ghost var failures: nat

    function Now(): Image
      reads this
    {
      Image(doc, secrets)
    }

    constructor (readable: bool)
      ensures doc == Absent && secrets == map[] && this.readable == readable && images == [Image(Absent, map[])]
    {
      doc, secrets, images, failures := Absent, map[], [Image(Absent, map[])], 0;
      this.readable := readable;
    }

    /** What a process finds that starts where another one stopped. */
    constructor At(im: Image, readable: bool)
      ensures Now() == im && this.readable == readable && images == [im]
    {
      doc, secrets, images, failures := im.doc, im.secrets, [im], 0;
      this.readable := readable;
    }

    /** Count a clock reading that failed. */
    ghost method NoteClockFailure(now: Option<nat>)
      requires now.None?
      modifies this`failures
      ensures failures == old(failures) + 1
    {
      failures := failures + 1;
    }

    method Get(id: Id) returns (r: Result<Option<Profile>>)
      ensures readable ==> r.Ok?
      ensures r.Ok? ==> r.value == if id in secrets then Some(secrets[id]) else None
    {
      var working: bool := *;
      if !readable && !working {
        return Err(Secure);
      }
      return Ok(if id in secrets then Some(secrets[id]) else None);
    }

    /** A failed write may or may not have taken effect. */
    method Set(id: Id, link: Profile) returns (ok: bool)
      modifies this
      ensures doc == old(doc)
      ensures secrets == old(secrets)[id := link] || (!ok && secrets == old(secrets))
      ensures images == old(images) + [Now()] && failures == old(failures) + if ok then 0 else 1
    {
      ok := *;
      var stored: bool := *;
      if ok || stored {
        secrets := secrets[id := link];
      }
      images := images + [Now()];
      failures := failures + if ok then 0 else 1;
    }

    method Delete(id: Id) returns (ok: bool)
      modifies this
      ensures doc == old(doc)
      ensures secrets == old(secrets) - {id} || (!ok && secrets == old(secrets))
      ensures images == old(images) + [Now()] && failures == old(failures) + if ok then 0 else 1
    {
      ok := *;
      var removed: bool := *;
      if ok || removed {
        secrets := secrets - {id};
      }
      images := images + [Now()];
      failures := failures + if ok then 0 else 1;
    }

    /** `persist`: the rename is atomic, so the document is the old one or the new one. */
    method Persist(entries: seq<Entry>) returns (ok: bool)
      modifies this
      ensures secrets == old(secrets)
      ensures doc == if ok then Document(SCHEMA_VERSION, entries) else old(doc)
      ensures images == old(images) + [Now()] && failures == old(failures) + if ok then 0 else 1
    {
      ok := *;
      if ok {
        doc := Document(SCHEMA_VERSION, entries);
      }
      images := images + [Now()];
      failures := failures + if ok then 0 else 1;
    }
  }

  // ----- names -----

  /** `host_of`: the host of a server spec, for the fallback name. */
  function HostOf(server: Text): Text {
    var s := Utf8.Trim(server);
    if s != [] && s[0] == OPEN_BRACKET && CLOSE_BRACKET in s[1..] then Before(s[1..], CLOSE_BRACKET)
    else
      match LastIndexOf(s, COLON)
      case Some(i) => if i == 0 then s else s[..i]
      case None => s
  }

  /** The host is what precedes the port spec, or everything without one. */
  lemma {:induction false} HostOfServer(host: Text, spec: Text)
    requires host != [] && host[0] != OPEN_BRACKET && COLON !in spec
    ensures Utf8.Trim(host) == host && COLON !in host ==> HostOf(host) == host
    ensures var s := host + [COLON] + spec; Utf8.Trim(s) == s ==> HostOf(s) == host
  {
    LastReadBack(host, spec, COLON);
    var s := host + [COLON] + spec;
    assert s[..|host|] == host;
  }

  /** Of a bracketed literal it is what the brackets enclose. */
  lemma {:induction false} HostOfBracketed(host: Text, rest: Text)
    requires CLOSE_BRACKET !in host
    ensures var s := [OPEN_BRACKET] + (host + ([CLOSE_BRACKET] + rest)); Utf8.Trim(s) == s ==> HostOf(s) == host
  {
    var close := [CLOSE_BRACKET] + rest;
    var s := [OPEN_BRACKET] + (host + close);
    assert s[1..] == host + close && (host + close)[|host|] == CLOSE_BRACKET;
    BeforeReadBack(host, close, CLOSE_BRACKET);
  }

  function NameFor(name: Option<Text>, server: Text): Text {
    if name.Some? && Utf8.Trim(name.value) != [] then Utf8.Trim(name.value) else HostOf(server)
  }

  /** A given name is kept but for the white space around it; a blank one, or none, is replaced by the host. */
  lemma {:induction false} NameForMeans(name: Text, server: Text)
    returns (a: seq<seq<byte>>, b: seq<seq<byte>>)
    ensures Unicode.AllSpaces(a) && Unicode.AllSpaces(b) && NameFor(None, server) == HostOf(server)
    ensures var shown := NameFor(Some(name), server);
            || (name == Unicode.Flat(a) + shown + Unicode.Flat(b) && shown != [] && Unicode.Trimmed(shown))
            || (name == Unicode.Flat(a) + Unicode.Flat(b) && shown == HostOf(server))
  {
    a, b := Unicode.TrimMeans(name);
    assert Utf8.Trim(name) == [] ==> Unicode.Flat(a) + Utf8.Trim(name) == Unicode.Flat(a);
  }

  /** In particular a name without white space around it is kept as it is. */
  lemma {:induction false} NameKept(name: Text, server: Text)
    requires name != [] && Unicode.Trimmed(name)
    ensures NameFor(Some(name), server) == name
  {
    Unicode.TrimKeeps(name);
  }

  // ----- the abstract list -----

  datatype Stored = Stored(entry: Entry, link: Profile)

  function Join(entries: seq<Entry>, secrets: map<Id, Profile>): (list: seq<Stored>)
    requires Backed(entries, secrets)
    ensures |list| == |entries|
    ensures forall i :: 0 <= i < |list| ==> list[i] == Stored(entries[i], secrets[entries[i].id])
  {
    seq(|entries|, i requires 0 <= i < |entries| => Stored(entries[i], secrets[entries[i].id]))
  }

  predicate DistinctLinks(list: seq<Stored>) {
    forall i, j :: 0 <= i < j < |list| ==> list[i].link != list[j].link
  }

  /** The first entry with this id. */
  function Position(entries: seq<Entry>, id: Id): (r: Option<nat>)
    ensures r.Some? ==> r.value < |entries| && entries[r.value].id == id
    ensures r.None? ==> forall i :: 0 <= i < |entries| ==> entries[i].id != id
  {
    if entries == [] then None
    else if entries[0].id == id then Some(0)
    else
      match Position(entries[1..], id)
      case None => None
      case Some(i) => Some(i + 1)
  }

  function Remove<T>(s: seq<T>, i: nat): (r: seq<T>)
    requires i < |s|
    ensures |r| == |s| - 1 && forall j :: 0 <= j < |r| ==> r[j] == s[if j < i then j else j + 1]
  {
    s[..i] + s[i + 1..]
  }

  /** What a restart finds is a list of distinct ids with a link for each, and distinct links if it can read them. */
  predicate Restartable(im: Image, readable: bool) {
    Recoverable(im) && (readable ==> DistinctLinks(Join(Listed(im.doc), im.secrets)))
  }

  predicate AllRestartable(images: seq<Image>, readable: bool) {
    forall k :: 0 <= k < |images| ==> Restartable(images[k], readable)
  }

  /** Every durable state is recoverable and holds the old or the new list, links included. */
  predicate CrashSafe(images: seq<Image>, before: seq<Stored>, after: seq<Stored>) {
    forall k :: 0 <= k < |images| ==>
      && Recoverable(images[k])
      && var list := Join(Listed(images[k].doc), images[k].secrets);
      list == before || list == after
  }

  lemma {:induction false} CrashSafeConcat(a: seq<Image>, b: seq<Image>, before: seq<Stored>, after: seq<Stored>)
    requires CrashSafe(a, before, after) && CrashSafe(b, before, after)
    ensures CrashSafe(a + b, before, after)
  {
  }

  // ----- what the single writes do to the durable state -----

  /** Writing or removing the secret of an unlisted id changes nothing anyone can see. */
  lemma {:induction false} SetUnlisted(im: Image, id: Id, link: Profile)
    requires Recoverable(im) && Position(Listed(im.doc), id).None?
    ensures Recoverable(Image(im.doc, im.secrets[id := link]))
    ensures Join(Listed(im.doc), im.secrets[id := link]) == Join(Listed(im.doc), im.secrets)
  {
  }

  lemma {:induction false} DeleteUnlisted(im: Image, id: Id)
    requires Recoverable(im) && Position(Listed(im.doc), id).None?
    ensures Recoverable(Image(im.doc, im.secrets - {id}))
    ensures Join(Listed(im.doc), im.secrets - {id}) == Join(Listed(im.doc), im.secrets)
  {
  }

  predicate Sound(entries: seq<Entry>, secrets: map<Id, Profile>) {
    DistinctIds(entries) && Backed(entries, secrets)
  }

  lemma {:induction false} AppendSound(entries: seq<Entry>, secrets: map<Id, Profile>, e: Entry)
    requires Sound(entries, secrets) && Position(entries, e.id).None? && e.id in secrets
    ensures Sound(entries + [e], secrets)
    ensures Join(entries + [e], secrets) == Join(entries, secrets) + [Stored(e, secrets[e.id])]
  {
  }

  lemma {:induction false} AppendDistinct(list: seq<Stored>, s: Stored)
    requires DistinctLinks(list) && forall i :: 0 <= i < |list| ==> list[i].link != s.link
    ensures DistinctLinks(list + [s])
  {
  }

  lemma {:induction false} RemoveSound(entries: seq<Entry>, secrets: map<Id, Profile>, i: nat)
    requires Sound(entries, secrets) && i < |entries|
    ensures Sound(Remove(entries, i), secrets)
    ensures Join(Remove(entries, i), secrets) == Remove(Join(entries, secrets), i)
    ensures Position(Remove(entries, i), entries[i].id).None?
  {
    var rest := Remove(entries, i);
    forall j | 0 <= j < |rest|
      ensures rest[j] == entries[if j < i then j else j + 1]
    {
    }
  }

  lemma {:induction false} RemoveDistinct(list: seq<Stored>, i: nat)
    requires DistinctLinks(list) && i < |list|
    ensures DistinctLinks(Remove(list, i))
  {
    var rest := Remove(list, i);
    assert forall j :: 0 <= j < |rest| ==> rest[j] == list[if j < i then j else j + 1];
  }

  function Renamed(e: Entry, name: Text): Entry {
    e.(name := name)
  }

  lemma {:induction false} RenameSound(entries: seq<Entry>, secrets: map<Id, Profile>, i: nat, name: Text)
    requires Sound(entries, secrets) && i < |entries|
    ensures var renamed := entries[i := Renamed(entries[i], name)];
            && Sound(renamed, secrets)
            && Join(renamed, secrets)
               == Join(entries, secrets)[i := Stored(renamed[i], secrets[entries[i].id])]
  {
    var renamed := entries[i := Renamed(entries[i], name)];
    assert forall j :: 0 <= j < |entries| ==> renamed[j].id == entries[j].id;
  }

  lemma {:induction false} RenameDistinct(list: seq<Stored>, i: nat, e: Entry)
    requires DistinctLinks(list) && i < |list|
    ensures DistinctLinks(list[i := Stored(e, list[i].link)])
  {
  }

  class Store {
    const backing: Backing
    var entries: seq<Entry>

    ghost predicate Valid()
      reads this, backing
    {
      && Restartable(backing.Now(), backing.readable)
      && entries == Listed(backing.doc)
      && AllRestartable(backing.images, backing.readable)
    }

    /** What the store holds: each entry with its link, in list order. */
    function View(): seq<Stored>
      requires Backed(entries, backing.secrets)
      reads this, backing
    {
      Join(entries, backing.secrets)
    }

    constructor Empty(readable: bool)
      ensures Valid() && entries == [] && fresh(backing) && backing.readable == readable
    {
      backing := new Backing(readable);
      entries := [];
    }

    constructor FromList(backing: Backing, entries: seq<Entry>)
      ensures this.backing == backing && this.entries == entries
    {
      this.backing := backing;
      this.entries := entries;
    }

    /** `find_matching`: an unreadable secret is no match. */
    method FindMatching(link: Profile) returns (r: Option<Entry>)
      requires Valid()
      ensures r.Some? ==> Stored(r.value, link) in View()
      ensures r.None? && backing.readable ==> forall i :: 0 <= i < |entries| ==> View()[i].link != link
    {
      for i := 0 to |entries|
        invariant backing.readable ==> forall j :: 0 <= j < i ==> View()[j].link != link
      {
        var got := backing.Get(entries[i].id);
        if got == Ok(Some(link)) {
          assert View()[i] == Stored(entries[i], link);
          return Some(entries[i]);
        }
      }
      return None;
    }

    /**
      `add`: an equal link already stored is returned as it is; otherwise one entry is appended with
      its link, or the list stays what it was. The fresh id and the clock are inputs.
     */
    method Add(
        link: Profile, name: Option<Text>, id: Id, now: Option<nat>)
      returns (r: Result<Entry>, ghost steps: seq<Image>)
      requires Valid() && Position(entries, id).None?
      modifies this, backing
      ensures Valid()
      ensures backing.images == old(backing.images) + steps && CrashSafe(steps, old(View()), View())
      ensures r.Err? ==> entries == old(entries) && View() == old(View())
      ensures r.Ok? ==>
                || (View() == old(View()) && Stored(r.value, link) in View())
                || (now.Some? && r.value == Entry(id, NameFor(name, link.server), now.value)
                    && View() == old(View()) + [Stored(r.value, link)])
      ensures backing.readable && (exists e :: Stored(e, link) in old(View())) ==>
                r.Ok? && View() == old(View()) && Stored(r.value, link) in View()
      ensures r == Err(Clock) ==> now.None?
      ensures if r.Err? then backing.failures > old(backing.failures) else backing.failures == old(backing.failures)
      ensures r == Err(Io) && backing.failures == old(backing.failures) + 1 ==> id !in backing.secrets
    {
      steps := [];
      assert backing.images == backing.images + [];
      var existing := FindMatching(link);
      if existing.Some? {
        return Ok(existing.value), steps;
      }
      var shown := NameFor(name, link.server);
      if now.None? {
        backing.NoteClockFailure(now);
        return Err(Clock), steps;
      }
      var stored;
      stored, steps := PutSecret(id, link);
      if !stored {
        return Err(Secure), steps;
      }
      var entry := Entry(id, shown, now.value);
      var published, more := Publish(entry);
      CrashSafeConcat(steps, more, old(View()), View());
      Associate(old(backing.images), steps, more);
      steps := steps + more;
      r := if published then Ok(entry) else Err(Io);
    }

    /** Write the secret of an id that is not listed (yet): nobody can see the difference. */
    method PutSecret(id: Id, link: Profile) returns (ok: bool, ghost steps: seq<Image>)
      requires Valid() && Position(entries, id).None?
      modifies backing
      ensures Valid() && View() == old(View())
      ensures backing.images == old(backing.images) + steps && CrashSafe(steps, View(), View())
      ensures ok ==> id in backing.secrets && backing.secrets[id] == link
      ensures backing.failures == old(backing.failures) + if ok then 0 else 1
    {
      SetUnlisted(backing.Now(), id, link);
      ok := backing.Set(id, link);
      steps := [backing.Now()];
    }

    /** Remove the secret of an id that is not listed (any more), as far as the backend goes along. */
    method DropSecret(id: Id) returns (ghost steps: seq<Image>)
      requires Valid() && Position(entries, id).None?
      modifies backing
      ensures Valid() && View() == old(View())
      ensures backing.images == old(backing.images) + steps && CrashSafe(steps, View(), View())
      ensures backing.failures >= old(backing.failures)
      ensures backing.failures == old(backing.failures) ==> id !in backing.secrets
    {
      DeleteUnlisted(backing.Now(), id);
      var _ := backing.Delete(id);
      steps := [backing.Now()];
    }

    /** The second half of `add`: list the entry, or take it and its secret back. */
    method Publish(entry: Entry) returns (ok: bool, ghost steps: seq<Image>)
      requires Valid() && Position(entries, entry.id).None? && entry.id in backing.secrets
      requires backing.readable ==>
                 forall i :: 0 <= i < |entries| ==> View()[i].link != backing.secrets[entry.id]
      modifies this, backing
      ensures Valid()
      ensures backing.images == old(backing.images) + steps && CrashSafe(steps, old(View()), View())
      ensures ok ==> View() == old(View()) + [Stored(entry, old(backing.secrets)[entry.id])]
      ensures !ok ==> entries == old(entries) && View() == old(View())
      ensures if ok then backing.failures == old(backing.failures) else backing.failures > old(backing.failures)
      ensures !ok && backing.failures == old(backing.failures) + 1 ==> entry.id !in backing.secrets
    {
      ok, steps := Enlist(entry);
      if !ok {
        var more := DropSecret(entry.id);
        CrashSafeConcat(steps, more, old(View()), View());
        Associate(old(backing.images), steps, more);
        steps := steps + more;
      }
    }

    /** List the entry, or take it off again when the document cannot be written. */
    method Enlist(entry: Entry) returns (ok: bool, ghost steps: seq<Image>)
      requires Valid() && Position(entries, entry.id).None? && entry.id in backing.secrets
      requires backing.readable ==>
                 forall i :: 0 <= i < |entries| ==> View()[i].link != backing.secrets[entry.id]
      modifies this, backing
      ensures Valid() && backing.secrets == old(backing.secrets)
      ensures backing.images == old(backing.images) + steps && CrashSafe(steps, old(View()), View())
      ensures entries == if ok then old(entries) + [entry] else old(entries)
      ensures View() == if ok then old(View()) + [Stored(entry, backing.secrets[entry.id])] else old(View())
      ensures backing.failures == old(backing.failures) + if ok then 0 else 1
    {
      AppendSound(entries, backing.secrets, entry);
      if backing.readable {
        AppendDistinct(View(), Stored(entry, backing.secrets[entry.id]));
      }
      entries := entries + [entry];
      ok := backing.Persist(entries);
      steps := [backing.Now()];
      if !ok {
        entries := entries[..|entries| - 1];
        assert entries == old(entries);
      }
    }

    /** `delete`: the document first, the secret after it and only as far as it goes. */
    method Delete(id: Id) returns (r: Result<bool>, ghost steps: seq<Image>)
      requires Valid()
      modifies this, backing
      ensures Valid()
      ensures backing.images == old(backing.images) + steps && CrashSafe(steps, old(View()), View())
      ensures r.Err? ==> View() == old(View())
      ensures r.Ok? ==> r.value == old(Position(entries, id).Some?)
      ensures r.Ok? ==> View() == if r.value then Remove(old(View()), old(Position(entries, id)).value) else old(View())
      ensures r.Ok? ==> Position(entries, id).None?
      ensures backing.failures >= old(backing.failures)
      ensures r.Ok? && backing.failures == old(backing.failures) ==> id !in backing.secrets
      ensures r.Err? ==> r.error == Io && backing.failures > old(backing.failures) && old(Position(entries, id).Some?)
    {
      var pos := Position(entries, id);
      if pos.None? {
        steps := DropSecret(id);
        return Ok(false), steps;
      }
      var ok;
      ok, steps := Unlist(pos.value);
      if !ok {
        return Err(Io), steps;
      }
      var more := DropSecret(id);
      CrashSafeConcat(steps, more, old(View()), View());
      Associate(old(backing.images), steps, more);
      return Ok(true), steps + more;
    }

    /** The first half of `delete`: drop the entry from the list, or put it back where it was. */
    method Unlist(pos: nat) returns (ok: bool, ghost steps: seq<Image>)
      requires Valid() && pos < |entries|
      modifies this, backing
      ensures Valid() && backing.secrets == old(backing.secrets)
      ensures backing.images == old(backing.images) + steps && CrashSafe(steps, old(View()), View())
      ensures entries == if ok then Remove(old(entries), pos) else old(entries)
      ensures View() == if ok then Remove(old(View()), pos) else old(View())
      ensures ok ==> Position(entries, old(entries)[pos].id).None?
      ensures backing.failures == old(backing.failures) + if ok then 0 else 1
    {
      var removed := entries[pos];
      RemoveSound(entries, backing.secrets, pos);
      entries := entries[..pos] + entries[pos + 1..];
      ok := backing.Persist(entries);
      steps := [backing.Now()];
      if !ok {
        entries := entries[..pos] + [removed] + entries[pos..];
        assert entries == old(entries);
      } else if backing.readable {
        RemoveDistinct(old(View()), pos);
      }
    }

    /** `load`. */
    method Load(id: Id) returns (r: Result<Option<Profile>>)
      ensures backing.readable ==> r.Ok?
      ensures r.Ok? ==> r.value == if id in backing.secrets then Some(backing.secrets[id]) else None
    {
      r := backing.Get(id);
    }

    /** `rename`: only the display name changes; a blank one falls back to the host. */
    method Rename(id: Id, newName: Text) returns (r: Result<bool>, ghost steps: seq<Image>)
      requires Valid()
      modifies this, backing
      ensures Valid()
      ensures backing.images == old(backing.images) + steps && CrashSafe(steps, old(View()), View())
      ensures r.Err? ==> View() == old(View())
      ensures r.Ok? ==> r.value == old(Position(entries, id).Some?)
      ensures r.Ok? ==>
                View() == if !r.value then old(View())
                          else var i := old(Position(entries, id)).value;
                               var s := old(View())[i];
                               var name := NameFor(Some(newName), s.link.server);
                               old(View())[i := Stored(Entry(s.entry.id, name, s.entry.createdAt), s.link)]
      ensures r.Ok? ==> backing.failures == old(backing.failures)
      ensures r.Err? ==> old(Position(entries, id).Some?)
      ensures r.Err? ==> backing.failures > old(backing.failures)
                         || (!backing.readable && Utf8.Trim(newName) == [] && backing.failures == old(backing.failures))
    {
      steps := [];
      assert backing.images == backing.images + [];
      var pos := Position(entries, id);
      if pos.None? {
        return Ok(false), steps;
      }
      var i := pos.value;
      assert View()[i].link == backing.secrets[id];
      var name := Utf8.Trim(newName);
      if name == [] {
        var loaded := Load(id);
        if loaded.Err? {
          return Err(loaded.error), steps;
        }
        // A listed profile always has its link, so the load found one.
        name := HostOf(loaded.value.value.server);
      }
      var ok;
      ok, steps := SetName(i, name);
      r := if ok then Ok(true) else Err(Io);
    }

    /** The second half of `rename`: save the new name, or restore the previous one. */
    method SetName(i: nat, name: Text) returns (ok: bool, ghost steps: seq<Image>)
      requires Valid() && i < |entries|
      modifies this, backing
      ensures Valid()
      ensures backing.images == old(backing.images) + steps && CrashSafe(steps, old(View()), View())
      ensures !ok ==> View() == old(View())
      ensures ok ==> View() == old(View())[i := Stored(Renamed(old(entries)[i], name), old(View())[i].link)]
      ensures backing.failures == old(backing.failures) + if ok then 0 else 1
    {
      var previous := entries[i].name;
      RenameSound(entries, backing.secrets, i, name);
      entries := entries[i := Renamed(entries[i], name)];
      ok := backing.Persist(entries);
      steps := [backing.Now()];
      if !ok {
        entries := entries[i := Renamed(entries[i], previous)];
        assert entries == old(entries);
      } else if backing.readable {
        RenameDistinct(old(View()), i, entries[i]);
      }
    }
  }

  /** `new`: what a process that starts over this backing sees; `working` is whether the document can be read. */
  method Open(backing: Backing, working: bool) returns (r: Result<Store>)
    ensures r.Ok? ==> fresh(r.value) && r.value.backing == backing && r.value.entries == Listed(backing.doc)
    ensures r.Err? ==>
              r.error == if !working then Io
                         else if backing.doc.Garbage? then Serde
                         else UnsupportedSchema(if backing.doc.Document? then backing.doc.version else 0)
    ensures r.Ok? <==>
            working && !backing.doc.Garbage? && (backing.doc.Document? ==> backing.doc.version <= SCHEMA_VERSION)
    ensures Recoverable(backing.Now()) ==> (r.Ok? <==> working)
  {
    if !working {
      return Err(Io);
    }
    if backing.doc.Garbage? {
      return Err(Serde);
    }
    if backing.doc.Document? && backing.doc.version > SCHEMA_VERSION {
      return Err(UnsupportedSchema(backing.doc.version));
    }
    var s := new Store.FromList(backing, Listed(backing.doc));
    return Ok(s);
  }

  /** Reopening after any call gives back exactly the list the closed store showed, links included. */
  method Reopen(s: Store, working: bool) returns (r: Result<Store>)
    requires s.Valid()
    ensures r.Ok? <==> working
    ensures r.Ok? ==> r.value.entries == s.entries && r.value.Valid() && r.value.View() == s.View()
    ensures r.Err? ==> r.error == Io
  {
    r := Open(s.backing, working);
  }

  /** A process that stopped at any point whatsoever leaves behind what a new one opens as a sound store. */
  method Restart(ghost s: Store, im: Image, readable: bool, working: bool) returns (r: Result<Store>)
    requires s.Valid() && im in s.backing.images && readable == s.backing.readable
    ensures r.Ok? <==> working
    ensures r.Ok? ==> r.value.Valid() && r.value.View() == Join(Listed(im.doc), im.secrets)
    ensures r.Err? ==> r.error == Io
  {
    var backing := new Backing.At(im, readable);
    r := Open(backing, working);
  }
}
