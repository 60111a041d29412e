/** The app model: one actor draining a command channel over the profile store. */
module Model {
  import opened Bytes
  import opened Percent
  import opened ShareLink
  import opened Store
  import Utf8

  datatype ConnectionState = Disconnected | Connecting | Connected | Disconnecting
  datatype ConnError = AuthFailed | ServerUnreachable | Timeout | Unknown

  /** The sentences the model can show. */
  datatype Sentence =
    | CouldNotSave | NotALink | CouldNotRename | CouldNotDelete | SelectFirst
    | Os(error: ConnError)

  datatype Intent =
    | AddProfileFromUri(uri: Text)
    | RenameProfile(id: Id, name: Text)
    | DeleteProfile(id: Id)
    | SelectProfile(id: Id)
    | Connect
    | Disconnect

  datatype Counters = Counters(txBytes: nat, rxBytes: nat)

  datatype Command =
    | Do(intent: Intent)
    | OsStatus(state: ConnectionState, error: Option<ConnError>)
    | Stats(counters: Counters)
    | ExportUri(id: Id)

  datatype Snapshot = Snapshot(
    profiles: seq<Entry>,
    selectedId: Option<Id>,
    connection: ConnectionState,
    lastError: Option<Sentence>)

  /** A call on the tunnel port, with the profiles listed when it was made. */
  datatype TunnelCall = Start(id: Id, listed: seq<Entry>) | Stop

  // ----- what a run must amount to, read off the commands alone -----

  predicate ShowsState(c: Command) { c.Do? || c.OsStatus? }

  function Shown(cmds: seq<Command>): nat {
    if cmds == [] then 0 else Shown(cmds[..|cmds| - 1]) + (if ShowsState(cmds[|cmds| - 1]) then 1 else 0)
  }

  function LastStatus(cmds: seq<Command>): ConnectionState {
    if cmds == [] then Disconnected
    else
      var c := cmds[|cmds| - 1];
      if c.OsStatus? then c.state else LastStatus(cmds[..|cmds| - 1])
  }

  function Forwarded(cmds: seq<Command>): seq<Counters> {
    if cmds == [] then []
    else
      var before, c := Forwarded(cmds[..|cmds| - 1]), cmds[|cmds| - 1];
      if c.Stats? then before + [c.counters] else before
  }

  predicate ListedId(entries: seq<Entry>, id: Id) {
    Position(entries, id).Some?
  }

  function ListedName(entries: seq<Entry>, id: Id): Option<Text> {
    var pos := Position(entries, id);
    if pos.Some? then Some(entries[pos.value].name) else None
  }

  predicate SelectionOk(entries: seq<Entry>, selected: Option<Id>) {
    selected.Some? ==> ListedId(entries, selected.value)
  }

  predicate StartsOk(calls: seq<TunnelCall>) {
    forall i :: 0 <= i < |calls| && calls[i].Start? ==> ListedId(calls[i].listed, calls[i].id)
  }

  predicate SnapshotsOk(snapshots: seq<Snapshot>) {
    forall i :: 0 <= i < |snapshots| ==> SelectionOk(snapshots[i].profiles, snapshots[i].selectedId)
  }

  predicate AllLinkable(list: seq<Stored>) {
    forall i :: 0 <= i < |list| ==> Linkable(list[i].link)
  }

  // ----- the state machine the actor must follow -----

  /** Everything the actor holds and has sent, with the stored list and the number of backend failures so far. */
  datatype App = App(
    list: seq<Stored>,
    selectedId: Option<Id>,
    connection: ConnectionState,
    lastError: Option<Sentence>,
    snapshots: seq<Snapshot>,
    stats: seq<Counters>,
    calls: seq<TunnelCall>,
    failures: nat)

  function Entries(list: seq<Stored>): (entries: seq<Entry>)
    ensures |entries| == |list| && forall i :: 0 <= i < |list| ==> entries[i] == list[i].entry
  {
    seq(|list|, i requires 0 <= i < |list| => list[i].entry)
  }

  function SnapshotOf(s: App): Snapshot {
    Snapshot(Entries(s.list), s.selectedId, s.connection, s.lastError)
  }

  ghost predicate HasLink(list: seq<Stored>, link: Profile) {
    exists e :: Stored(e, link) in list
  }

  /** An entry that can be appended for this link: a fresh id, the given name or else the host. */
  predicate FreshEntry(list: seq<Stored>, e: Entry, link: Profile, name: Option<Text>) {
    !ListedId(Entries(list), e.id) && e.name == NameFor(name, link.server)
  }

  /** The stored profile is selected, the new one is stored and selected, or only a failure is shown. */
  ghost predicate Saved(s: App, link: Profile, name: Option<Text>, readable: bool, t: App) {
    || (exists e :: Stored(e, link) in s.list && t == s.(selectedId := Some(e.id), lastError := None))
    || (&& !(readable && HasLink(s.list, link))
        && (exists e :: FreshEntry(s.list, e, link, name)
             && t == s.(list := s.list + [Stored(e, link)], selectedId := Some(e.id), lastError := None)))
    || (&& !(readable && HasLink(s.list, link)) && t.failures > s.failures
        && t == s.(lastError := Some(CouldNotSave), failures := t.failures))
  }

  function NewlyNamed(list: seq<Stored>, i: nat, name: Text): seq<Stored>
    requires i < |list|
  {
    var e := list[i].entry;
    list[i := Stored(Entry(e.id, NameFor(Some(name), list[i].link.server), e.createdAt), list[i].link)]
  }

  predicate RenameOutcome(s: App, id: Id, name: Text, readable: bool, t: App) {
    match Position(Entries(s.list), id)
    case None => t == s
    case Some(i) =>
      || t == s.(list := NewlyNamed(s.list, i, name))
      || (t == s.(lastError := Some(CouldNotRename), failures := t.failures)
          && (t.failures > s.failures || (t.failures == s.failures && !readable && Utf8.Trim(name) == [])))
  }

  function Without(s: App, id: Id): App {
    s.(selectedId := if s.selectedId == Some(id) then None else s.selectedId)
  }

  predicate DeleteOutcome(s: App, id: Id, t: App) {
    match Position(Entries(s.list), id)
    case None => t == Without(s, id).(failures := t.failures) && t.failures >= s.failures
    case Some(i) =>
      || (t == Without(s, id).(list := Remove(s.list, i), failures := t.failures) && t.failures >= s.failures)
      || (t == s.(lastError := Some(CouldNotDelete), failures := t.failures) && t.failures > s.failures)
  }

  /** What an intent may do; only a backend failure leaves it without its effect. */
  ghost predicate Applied(s: App, intent: Intent, readable: bool, t: App) {
    match intent
    case AddProfileFromUri(uri) =>
      if ParseUri(uri).None? then t == s.(lastError := Some(NotALink))
      else Saved(s, ParseUri(uri).value, NameFromUri(uri), readable, t)
    case RenameProfile(id, name) => RenameOutcome(s, id, name, readable, t)
    case DeleteProfile(id) => DeleteOutcome(s, id, t)
    case SelectProfile(id) => t == if ListedId(Entries(s.list), id) then s.(selectedId := Some(id)) else s
    case Connect =>
      if s.selectedId.Some?
      then t == s.(lastError := None, calls := s.calls + [Start(s.selectedId.value, Entries(s.list))])
      else t == s.(lastError := Some(SelectFirst))
    case Disconnect => t == s.(calls := s.calls + [Stop])
  }

  /** One turn of the loop. Stats and exports show nothing; everything else ends in a snapshot of the new state. */
  ghost predicate Next(s: App, cmd: Command, readable: bool, t: App) {
    match cmd
    case Stats(counters) => t == s.(stats := s.stats + [counters])
    case ExportUri(_) => t == s
    case OsStatus(state, error) =>
      var u := s.(connection := state, lastError := if error.Some? then Some(Os(error.value)) else None);
      t == u.(snapshots := s.snapshots + [SnapshotOf(u)])
    case Do(intent) =>
      && Applied(s, intent, readable, t.(snapshots := s.snapshots))
      && t.snapshots == s.snapshots + [SnapshotOf(t)]
  }

  /** The states a run went through, one before each command and one after the last. */
  ghost predicate Follows(trace: seq<App>, cmds: seq<Command>, readable: bool) {
    |trace| == |cmds| + 1 && forall i :: 0 <= i < |cmds| ==> Next(trace[i], cmds[i], readable, trace[i + 1])
  }

  // ----- what every such run amounts to -----

  /** The call on the tunnel, if any, that a command makes. */
  function CallOf(s: App, cmd: Command): seq<TunnelCall> {
    if cmd == Do(Disconnect) then [Stop]
    else if cmd == Do(Connect) && s.selectedId.Some? then [Start(s.selectedId.value, Entries(s.list))]
    else []
  }

  /** The calls on the tunnel: one start per connect with a selection, one stop per disconnect, in order. */
  function CallsOf(trace: seq<App>, cmds: seq<Command>): seq<TunnelCall>
    requires |trace| == |cmds| + 1
  {
    if cmds == [] then []
    else
      var n := |cmds| - 1;
      CallsOf(trace[..n + 1], cmds[..n]) + CallOf(trace[n], cmds[n])
  }

  lemma {:induction false} FollowsBefore(trace: seq<App>, cmds: seq<Command>, readable: bool)
    requires Follows(trace, cmds, readable) && cmds != []
    ensures var n := |cmds| - 1;
            && Follows(trace[..n + 1], cmds[..n], readable) && Next(trace[n], cmds[n], readable, trace[n + 1])
            && trace[..n + 1][0] == trace[0] && trace[..n + 1][n] == trace[n]
  {
  }

  /** The tunnel is started and stopped by those commands and by nothing else. */
  lemma {:induction false} TunnelCalls(trace: seq<App>, cmds: seq<Command>, readable: bool)
    requires Follows(trace, cmds, readable)
    ensures trace[|cmds|].calls == trace[0].calls + CallsOf(trace, cmds)
    decreases |cmds|
  {
    if cmds != [] {
      var n := |cmds| - 1;
      FollowsBefore(trace, cmds, readable);
      TunnelCalls(trace[..n + 1], cmds[..n], readable);
      CallsStep(trace[n], cmds[n], readable, trace[n + 1]);
      Associate(trace[0].calls, CallsOf(trace[..n + 1], cmds[..n]), CallOf(trace[n], cmds[n]));
    }
  }

  /** Status, snapshots and stats follow from the commands alone. */
  lemma {:induction false} Outputs(trace: seq<App>, cmds: seq<Command>, readable: bool)
    requires Follows(trace, cmds, readable)
    ensures var s, t := trace[0], trace[|cmds|];
            && |t.snapshots| == |s.snapshots| + Shown(cmds)
            && (s.snapshots != [] && s.snapshots[|s.snapshots| - 1] == SnapshotOf(s) ==>
                  t.snapshots[|t.snapshots| - 1] == SnapshotOf(t))
            && (s.connection == Disconnected ==> t.connection == LastStatus(cmds))
            && t.stats == s.stats + Forwarded(cmds)
    decreases |cmds|
  {
    if cmds != [] {
      var n := |cmds| - 1;
      FollowsBefore(trace, cmds, readable);
      Outputs(trace[..n + 1], cmds[..n], readable);
      OutputsStep(trace[n], cmds[n], readable, trace[n + 1]);
    }
  }

  lemma {:induction false} OutputsStep(s: App, cmd: Command, readable: bool, t: App)
    requires Next(s, cmd, readable, t)
    ensures if ShowsState(cmd) then t.snapshots == s.snapshots + [SnapshotOf(t)]
            else t.snapshots == s.snapshots && SnapshotOf(t) == SnapshotOf(s)
    ensures t.connection == if cmd.OsStatus? then cmd.state else s.connection
    ensures t.stats == s.stats + if cmd.Stats? then [cmd.counters] else []
  {
    if cmd.Do? {
      AppliedFrame(s, cmd.intent, readable, t.(snapshots := s.snapshots));
    }
  }

  /** What no intent touches, and the two that reach the tunnel. */
  lemma {:induction false} AppliedFrame(s: App, intent: Intent, readable: bool, t: App)
    requires Applied(s, intent, readable, t)
    ensures t.connection == s.connection && t.stats == s.stats
    ensures t.calls == if intent.Disconnect? then s.calls + [Stop]
                       else if intent.Connect? && s.selectedId.Some?
                       then s.calls + [Start(s.selectedId.value, Entries(s.list))]
                       else s.calls
  {
    match intent
    case AddProfileFromUri(uri) =>
      if ParseUri(uri).Some? {
        SavedFrame(s, ParseUri(uri).value, NameFromUri(uri), readable, t);
      }
    case RenameProfile(id, name) => RenameFrame(s, id, name, readable, t);
    case DeleteProfile(id) => DeleteFrame(s, id, t);
    case _ =>
  }

  lemma {:induction false} SavedFrame(s: App, link: Profile, name: Option<Text>, readable: bool, t: App)
    requires Saved(s, link, name, readable, t)
    ensures t.connection == s.connection && t.stats == s.stats && t.calls == s.calls
  {
  }

  lemma {:induction false} RenameFrame(s: App, id: Id, name: Text, readable: bool, t: App)
    requires RenameOutcome(s, id, name, readable, t)
    ensures t.connection == s.connection && t.stats == s.stats && t.calls == s.calls
  {
  }

  lemma {:induction false} DeleteFrame(s: App, id: Id, t: App)
    requires DeleteOutcome(s, id, t)
    ensures t.connection == s.connection && t.stats == s.stats && t.calls == s.calls
  {
  }

  lemma {:induction false} AppliedCause(s: App, intent: Intent, readable: bool, t: App)
    requires Applied(s, intent, readable, t)
    ensures t.failures >= s.failures
    ensures readable && t.failures == s.failures && BackendError(t.lastError) ==> BackendError(s.lastError)
  {
  }

  lemma {:induction false} CallsStep(s: App, cmd: Command, readable: bool, t: App)
    requires Next(s, cmd, readable, t)
    ensures t.calls == s.calls + CallOf(s, cmd)
  {
    if cmd.Do? {
      AppliedFrame(s, cmd.intent, readable, t.(snapshots := s.snapshots));
    }
  }

  predicate BackendError(e: Option<Sentence>) {
    e == Some(CouldNotSave) || e == Some(CouldNotRename) || e == Some(CouldNotDelete)
  }

  lemma {:induction false} ErrorStep(s: App, cmd: Command, readable: bool, t: App)
    requires Next(s, cmd, readable, t)
    ensures t.failures >= s.failures
    ensures readable && t.failures == s.failures && BackendError(t.lastError) ==> BackendError(s.lastError)
  {
    if cmd.Do? {
      AppliedCause(s, cmd.intent, readable, t.(snapshots := s.snapshots));
    }
  }

  /** While no backend fails, no state shows a backend error: each has a cause. */
  lemma {:induction false} ErrorsHaveCauses(trace: seq<App>, cmds: seq<Command>)
    requires Follows(trace, cmds, true) && !BackendError(trace[0].lastError)
    ensures trace[|cmds|].failures >= trace[0].failures
    ensures trace[|cmds|].failures == trace[0].failures ==>
              forall i :: 0 <= i <= |cmds| ==> !BackendError(trace[i].lastError)
    decreases |cmds|
  {
    if cmds != [] {
      var n := |cmds| - 1;
      FollowsBefore(trace, cmds, true);
      ErrorsHaveCauses(trace[..n + 1], cmds[..n]);
      ErrorStep(trace[n], cmds[n], true, trace[n + 1]);
    }
  }

  /** The profile is listed with the same link, whatever its name is now. */
  ghost predicate KeepsLink(list: seq<Stored>, kept: Stored) {
    exists i :: 0 <= i < |list| && list[i].entry.id == kept.entry.id && list[i].link == kept.link
  }

  lemma {:induction false} RemoveKeepsOthers(list: seq<Stored>, j: nat, kept: Stored)
    requires j < |list| && list[j].entry.id != kept.entry.id && KeepsLink(list, kept)
    ensures KeepsLink(Remove(list, j), kept)
  {
    var i :| 0 <= i < |list| && list[i].entry.id == kept.entry.id && list[i].link == kept.link;
    assert Remove(list, j)[if i < j then i else i - 1] == list[i];
  }

  lemma {:induction false} RenameKeepsLinks(list: seq<Stored>, j: nat, name: Text, kept: Stored)
    requires j < |list| && KeepsLink(list, kept)
    ensures KeepsLink(NewlyNamed(list, j, name), kept)
  {
    var i :| 0 <= i < |list| && list[i].entry.id == kept.entry.id && list[i].link == kept.link;
    assert NewlyNamed(list, j, name)[i].entry.id == list[i].entry.id;
  }

  lemma {:induction false} AppendKeepsLinks(list: seq<Stored>, s: Stored, kept: Stored)
    requires KeepsLink(list, kept)
    ensures KeepsLink(list + [s], kept)
  {
    var i :| 0 <= i < |list| && list[i].entry.id == kept.entry.id && list[i].link == kept.link;
    assert (list + [s])[i] == list[i];
  }

  /** What an intent can do to the list. */
  lemma {:induction false} ListStep(s: App, intent: Intent, readable: bool, t: App)
    requires Applied(s, intent, readable, t)
    ensures var id := if intent.DeleteProfile? || intent.RenameProfile? then intent.id else [];
            var pos := Position(Entries(s.list), id);
            || t.list == s.list
            || (intent.AddProfileFromUri? && exists e :: t.list == s.list + [e])
            || (intent.RenameProfile? && pos.Some? && t.list == NewlyNamed(s.list, pos.value, intent.name))
            || (intent.DeleteProfile? && pos.Some? && t.list == Remove(s.list, pos.value))
  {
  }

  lemma {:induction false} LinkStep(s: App, cmd: Command, readable: bool, t: App, kept: Stored)
    requires Next(s, cmd, readable, t) && KeepsLink(s.list, kept) && cmd != Do(DeleteProfile(kept.entry.id))
    ensures KeepsLink(t.list, kept)
  {
    if cmd.Do? {
      ListStep(s, cmd.intent, readable, t.(snapshots := s.snapshots));
      if t.list != s.list {
        if cmd.intent.AddProfileFromUri? {
          var e :| t.list == s.list + [e];
          AppendKeepsLinks(s.list, e, kept);
        } else if cmd.intent.RenameProfile? {
          RenameKeepsLinks(s.list, Position(Entries(s.list), cmd.intent.id).value, cmd.intent.name, kept);
        } else {
          RemoveKeepsOthers(s.list, Position(Entries(s.list), cmd.intent.id).value, kept);
        }
      }
    }
  }

  /** A stored profile stays listed, with the link it was stored with, until it is itself deleted. */
  lemma {:induction false} LinksStay(trace: seq<App>, cmds: seq<Command>, readable: bool, kept: Stored)
    requires Follows(trace, cmds, readable) && KeepsLink(trace[0].list, kept)
    requires Do(DeleteProfile(kept.entry.id)) !in cmds
    ensures KeepsLink(trace[|cmds|].list, kept)
    decreases |cmds|
  {
    if cmds != [] {
      var n := |cmds| - 1;
      FollowsBefore(trace, cmds, readable);
      LinksStay(trace[..n + 1], cmds[..n], readable, kept);
      LinkStep(trace[n], cmds[n], readable, trace[n + 1], kept);
    }
  }

  lemma {:induction false} FollowsNext(trace: seq<App>, cmds: seq<Command>, i: nat, readable: bool, t: App)
    requires i < |cmds| && Follows(trace, cmds[..i], readable) && Next(trace[i], cmds[i], readable, t)
    ensures Follows(trace + [t], cmds[..i + 1], readable)
    ensures (trace + [t])[0] == trace[0] && (trace + [t])[i + 1] == t
  {
    var longer, upTo := trace + [t], cmds[..i + 1];
    forall k | 0 <= k < |upTo|
      ensures Next(longer[k], upTo[k], readable, longer[k + 1])
    {
      if k < i {
        assert longer[k] == trace[k] && longer[k + 1] == trace[k + 1] && upTo[k] == cmds[..i][k];
      }
    }
  }

  /** Saving a link that is stored under one entry selects that entry and leaves the list alone. */
  lemma {:induction false} SavedAgain(s: App, link: Profile, name: Option<Text>, t: App, i: nat)
    requires Saved(s, link, name, true, t) && DistinctLinks(s.list)
    requires i < |s.list| && s.list[i].link == link
    ensures t == s.(selectedId := Some(s.list[i].entry.id), lastError := None)
  {
    assert Stored(s.list[i].entry, link) in s.list;
    var e :| Stored(e, link) in s.list && t == s.(selectedId := Some(e.id), lastError := None);
    var k :| 0 <= k < |s.list| && s.list[k] == Stored(e, link);
    assert k == i;
  }

  // ----- what each command does, in the user's terms -----

  /** Some entry of the list has this id. */
  predicate Lists(list: seq<Stored>, id: Id) {
    exists i :: 0 <= i < |list| && list[i].entry.id == id
  }

  lemma {:induction false} ListsIsListed(list: seq<Stored>, id: Id)
    ensures Lists(list, id) <==> ListedId(Entries(list), id)
  {
    var pos := Position(Entries(list), id);
    if pos.Some? {
      assert list[pos.value].entry.id == id;
    }
    if i :| 0 <= i < |list| && list[i].entry.id == id {
      assert Entries(list)[i].id == id;
    }
  }

  /** Selecting a listed profile selects it, and connecting right after that starts it. */
  lemma {:induction false} SelectThenConnect(trace: seq<App>, cmds: seq<Command>, readable: bool, n: nat, id: Id)
    requires Follows(trace, cmds, readable) && n < |cmds| && cmds[n] == Do(SelectProfile(id))
    ensures trace[n + 1].selectedId == if Lists(trace[n].list, id) then Some(id) else trace[n].selectedId
    ensures Lists(trace[n].list, id) && n + 1 < |cmds| && cmds[n + 1] == Do(Connect) ==>
              && trace[n + 2].calls == trace[n].calls + [Start(id, Entries(trace[n].list))]
              && trace[n + 2].lastError == None
  {
    assert Next(trace[n], cmds[n], readable, trace[n + 1]);
    ListsIsListed(trace[n].list, id);
    CallsStep(trace[n], cmds[n], readable, trace[n + 1]);
    if n + 1 < |cmds| && cmds[n + 1] == Do(Connect) {
      assert Next(trace[n + 1], cmds[n + 1], readable, trace[n + 2]);
      CallsStep(trace[n + 1], cmds[n + 1], readable, trace[n + 2]);
    }
  }

  /** The selection changes by selecting, by adding, and by deleting the selected profile, and not otherwise. */
  lemma {:induction false} SelectionMoves(s: App, intent: Intent, readable: bool, t: App)
    requires Applied(s, intent, readable, t)
    ensures match intent
            case SelectProfile(id) => t.selectedId == if Lists(s.list, id) then Some(id) else s.selectedId
            case DeleteProfile(id) =>
              if s.selectedId != Some(id) then t.selectedId == s.selectedId
              else t.selectedId == None
                   || (t.selectedId == Some(id) && t.list == s.list && t.failures > s.failures)
            case AddProfileFromUri(uri) =>
              if t.lastError.Some? then t.selectedId == s.selectedId
              else ParseUri(uri).Some?
                   && exists e: Entry :: t.selectedId == Some(e.id) && Stored(e, ParseUri(uri).value) in t.list
            case _ => t.selectedId == s.selectedId
  {
    match intent
    case SelectProfile(id) => ListsIsListed(s.list, id);
    case AddProfileFromUri(uri) =>
      if ParseUri(uri).Some? {
        SavedMoves(s, ParseUri(uri).value, NameFromUri(uri), readable, t);
      }
    case DeleteProfile(id) => assert DeleteOutcome(s, id, t);
    case _ =>
  }

  /** Saving without a failure leaves the link stored and selected and clears the error; a new link goes to the end. */
  lemma {:induction false} SavedMoves(s: App, link: Profile, name: Option<Text>, readable: bool, t: App)
    requires Saved(s, link, name, readable, t)
    ensures t.failures == s.failures ==>
              && t.lastError == None
              && (exists e: Entry :: t.selectedId == Some(e.id) && Stored(e, link) in t.list)
              && (!HasLink(s.list, link) ==>
                    exists e: Entry :: t.list == s.list + [Stored(e, link)] && e.name == NameFor(name, link.server)
                      && !Lists(s.list, e.id))
              && (readable && HasLink(s.list, link) ==> t.list == s.list)
    ensures t.failures != s.failures ==>
              t.list == s.list && t.selectedId == s.selectedId && t.lastError == Some(CouldNotSave)
    ensures t.lastError.Some? <==> t.failures != s.failures
  {
    if e :| Stored(e, link) in s.list && t == s.(selectedId := Some(e.id), lastError := None) {
      assert HasLink(s.list, link);
    } else if t.failures == s.failures {
      var e :| FreshEntry(s.list, e, link, name)
               && t == s.(list := s.list + [Stored(e, link)], selectedId := Some(e.id), lastError := None);
      ListsIsListed(s.list, e.id);
      assert (s.list + [Stored(e, link)])[|s.list|] == Stored(e, link);
    }
  }

  /** Deleting a listed profile takes exactly it off the list, unless a failure is shown. */
  lemma {:induction false} DeleteMoves(s: App, id: Id, t: App)
    requires DeleteOutcome(s, id, t)
    ensures !Lists(s.list, id) ==> t.list == s.list && t.lastError == s.lastError
    ensures Lists(s.list, id) && t.failures == s.failures ==>
              t.lastError == s.lastError
              && exists i :: 0 <= i < |s.list| && s.list[i].entry.id == id && t.list == s.list[..i] + s.list[i + 1..]
    ensures t.lastError != s.lastError ==>
              t.lastError == Some(CouldNotDelete) && t.list == s.list && t.failures > s.failures
  {
    ListsIsListed(s.list, id);
    var pos := Position(Entries(s.list), id);
    if pos.Some? {
      assert s.list[pos.value].entry.id == id;
      assert Remove(s.list, pos.value) == s.list[..pos.value] + s.list[pos.value + 1..];
    }
  }

  /** Renaming a listed profile gives it the new name and changes nothing else, unless a failure is shown. */
  lemma {:induction false} RenameMoves(s: App, id: Id, name: Text, readable: bool, t: App)
    requires RenameOutcome(s, id, name, readable, t)
    ensures !Lists(s.list, id) ==> t == s
    ensures Lists(s.list, id) && readable && t.failures == s.failures ==>
              t.lastError == s.lastError
              && exists i :: 0 <= i < |s.list| == |t.list| && s.list[i].entry.id == id
                   && t.list[i].entry.id == id && t.list[i].entry.createdAt == s.list[i].entry.createdAt
                   && t.list[i].entry.name == NameFor(Some(name), s.list[i].link.server)
                   && t.list[i].link == s.list[i].link
                   && forall j :: 0 <= j < |s.list| && j != i ==> t.list[j] == s.list[j]
    ensures t.lastError != s.lastError ==> t.lastError == Some(CouldNotRename) && t.list == s.list
  {
    ListsIsListed(s.list, id);
    var pos := Position(Entries(s.list), id);
    if pos.Some? {
      assert s.list[pos.value].entry.id == id;
    }
  }

  /** What is shown as the error: what the OS said last, what the intent ran into, or nothing any more. */
  lemma {:induction false} ErrorMoves(s: App, cmd: Command, readable: bool, t: App)
    requires Next(s, cmd, readable, t)
    ensures match cmd
            case OsStatus(_, error) => t.lastError == if error.Some? then Some(Os(error.value)) else None
            case Do(Connect) => t.lastError == if s.selectedId.Some? then None else Some(SelectFirst)
            case Do(AddProfileFromUri(uri)) =>
              if ParseUri(uri).None? then t.lastError == Some(NotALink)
              else t.lastError == if t.failures == s.failures then None else Some(CouldNotSave)
            case Do(RenameProfile(_, _)) => t.lastError == s.lastError || t.lastError == Some(CouldNotRename)
            case Do(DeleteProfile(_)) => t.lastError == s.lastError || t.lastError == Some(CouldNotDelete)
            case _ => t.lastError == s.lastError
  {
    if cmd.Do? {
      var u := t.(snapshots := s.snapshots);
      match cmd.intent
      case AddProfileFromUri(uri) =>
        if ParseUri(uri).Some? {
          SavedMoves(s, ParseUri(uri).value, NameFromUri(uri), readable, u);
        }
      case RenameProfile(id, name) => RenameMoves(s, id, name, readable, u);
      case DeleteProfile(id) => DeleteMoves(s, id, u);
      case _ =>
    }
  }

  /** Every intent and every OS status ends in a snapshot of the list, the selection, the status and the error. */
  lemma {:induction false} EverythingIsShown(s: App, cmd: Command, readable: bool, t: App)
    requires Next(s, cmd, readable, t) && (cmd.Do? || cmd.OsStatus?)
    ensures |t.snapshots| == |s.snapshots| + 1 && t.snapshots[..|s.snapshots|] == s.snapshots
    ensures var shown := t.snapshots[|s.snapshots|];
            && |shown.profiles| == |t.list|
            && (forall i :: 0 <= i < |t.list| ==> shown.profiles[i] == t.list[i].entry)
            && shown.selectedId == t.selectedId && shown.connection == t.connection && shown.lastError == t.lastError
  {
    OutputsStep(s, cmd, readable, t);
  }

  // ----- small facts about lists -----

  lemma {:induction false} SameIdsSameListing(a: seq<Entry>, b: seq<Entry>, id: Id)
    requires |a| == |b| && forall i :: 0 <= i < |a| ==> a[i].id == b[i].id
    ensures ListedId(a, id) <==> ListedId(b, id)
  {
  }

  lemma {:induction false} RemovedListing(entries: seq<Entry>, i: nat, id: Id)
    requires i < |entries| && entries[i].id != id
    ensures ListedId(entries, id) ==> ListedId(Remove(entries, i), id)
  {
    if ListedId(entries, id) {
      var j := Position(entries, id).value;
      var rest := Remove(entries, i);
      assert rest[if j < i then j else j - 1].id == id;
    }
  }

  /** Once the id is gone from the list, so is it from the selection. */
  lemma {:induction false} DeselectedOk(entries: seq<Entry>, pos: Option<nat>, id: Id, selected: Option<Id>)
    requires pos == Position(entries, id) && SelectionOk(entries, selected)
    ensures var rest := if pos.Some? then Remove(entries, pos.value) else entries;
            SelectionOk(rest, if selected == Some(id) then None else selected)
  {
    if selected.Some? && selected != Some(id) && pos.Some? {
      RemovedListing(entries, pos.value, selected.value);
    }
  }

  lemma {:induction false} StoredIsListed(entries: seq<Entry>, secrets: map<Id, Profile>, s: Stored)
    requires Backed(entries, secrets) && s in Join(entries, secrets)
    ensures ListedId(entries, s.entry.id)
  {
    var k :| 0 <= k < |entries| && Join(entries, secrets)[k] == s;
    assert entries[k].id == s.entry.id;
  }

  /** Appending to the list keeps every id listed. */
  lemma {:induction false} GrownListing(
      a: seq<Entry>, b: seq<Entry>, s: map<Id, Profile>, t: map<Id, Profile>, selected: Option<Id>)
    requires Backed(a, s) && Backed(b, t) && Join(a, s) <= Join(b, t)
    ensures SelectionOk(a, selected) ==> SelectionOk(b, selected)
  {
    if selected.Some? && ListedId(a, selected.value) {
      var i := Position(a, selected.value).value;
      assert Join(b, t)[i] == Join(a, s)[i];
      assert b[i].id == selected.value;
    }
  }

  /** The same ids and links, whatever the names. */
  predicate SameIdsAndLinks(a: seq<Stored>, b: seq<Stored>) {
    |a| == |b| && forall i :: 0 <= i < |a| ==> a[i].entry.id == b[i].entry.id && a[i].link == b[i].link
  }

  lemma {:induction false} SameShape(
      a: seq<Entry>, b: seq<Entry>, s: map<Id, Profile>, t: map<Id, Profile>, selected: Option<Id>)
    requires Backed(a, s) && Backed(b, t) && SameIdsAndLinks(Join(a, s), Join(b, t))
    ensures |a| == |b| && forall i :: 0 <= i < |a| ==> a[i].id == b[i].id
    ensures SelectionOk(a, selected) ==> SelectionOk(b, selected)
    ensures AllLinkable(Join(a, s)) ==> AllLinkable(Join(b, t))
  {
    forall i | 0 <= i < |a|
      ensures a[i].id == b[i].id
    {
      assert Join(a, s)[i].entry.id == Join(b, t)[i].entry.id;
    }
    if selected.Some? {
      SameIdsSameListing(a, b, selected.value);
    }
  }

  lemma {:induction false} SavedEntry(s: App, link: Profile, name: Option<Text>, readable: bool, t: App, e: Entry)
    requires t == s.(list := t.list, selectedId := Some(e.id), lastError := None)
    requires || (t.list == s.list && Stored(e, link) in s.list)
             || (&& t.list == s.list + [Stored(e, link)] && FreshEntry(s.list, e, link, name)
                 && !(readable && HasLink(s.list, link)))
    ensures Saved(s, link, name, readable, t)
  {
  }

  lemma {:induction false} AppendedLinkable(list: seq<Stored>, grown: seq<Stored>, s: Stored)
    requires AllLinkable(list) && Linkable(s.link) && (grown == list || grown == list + [s])
    ensures AllLinkable(grown) && list <= grown
  {
  }

  lemma {:induction false} LongestId(entries: seq<Entry>) returns (n: nat)
    ensures forall i :: 0 <= i < |entries| ==> |entries[i].id| < n
  {
    if entries == [] {
      n := 0;
    } else {
      n := LongestId(entries[1..]);
      if n <= |entries[0].id| {
        n := |entries[0].id| + 1;
      }
      assert forall i :: 1 <= i < |entries| ==> entries[i] == entries[1..][i - 1];
    }
  }

  lemma {:induction false} SomeFreshId(entries: seq<Entry>)
    ensures exists id: Id :: !ListedId(entries, id)
  {
    var n := LongestId(entries);
    var id: Id := seq(n, _ => 48);
    assert !ListedId(entries, id);
  }

  class Actor {
    const store: Store
    var entries: seq<Entry>
    var selectedId: Option<Id>
    var connection: ConnectionState
    var lastError: Option<Sentence>
    // What has been sent to the three ports so far.
    var snapshots: seq<Snapshot>
    var stats: seq<Counters>
    var calls: seq<TunnelCall>

    ghost predicate Valid()
      reads this, store, store.backing
    {
      && store.Valid()
      && entries == store.entries
      && AllLinkable(store.View())
      && SelectionOk(entries, selectedId)
      && StartsOk(calls) && SnapshotsOk(snapshots)
    }

    function Snap(): Snapshot
      reads this
    {
      Snapshot(entries, selectedId, connection, lastError)
    }

    /** The actor starts with the stored list and shows it. */
    constructor (store: Store)
      requires store.Valid() && AllLinkable(store.View())
      ensures this.store == store && Valid()
      ensures snapshots == [Snap()] && stats == [] && calls == []
      ensures selectedId == None && connection == Disconnected && lastError == None
    {
      this.store := store;
      entries := store.entries;
      selectedId, connection, lastError := None, Disconnected, None;
      stats, calls := [], [];
      snapshots := [Snapshot(store.entries, None, Disconnected, None)];
    }

    /** The whole state, as the state machine sees it. */
    ghost function State(): App
      requires Backed(store.entries, store.backing.secrets)
      reads this, store, store.backing
    {
      App(store.View(), selectedId, connection, lastError, snapshots, stats, calls, store.backing.failures)
    }

    /** Store a parsed link and select it, or say that it could not be saved. */
    method AddLink(link: Profile, name: Option<Text>)
      requires Valid() && Linkable(link)
      modifies this`entries, this`selectedId, this`lastError, store, store.backing
      ensures Valid()
      ensures Saved(old(State()), link, name, store.backing.readable, State())
    {
      SomeFreshId(store.entries);
      var id: Id :| !ListedId(store.entries, id);
      var now: Option<nat> := *;
      var r, _ := store.Add(link, name, id, now);
      ghost var s := Stored(if r.Ok? then r.value else Entry(id, [], 0), link);
      AppendedLinkable(old(store.View()), store.View(), s);
      GrownListing(entries, store.entries, old(store.backing.secrets), store.backing.secrets, selectedId);
      EntriesOfJoin(entries, old(store.backing.secrets));
      if r.Ok? {
        StoredIsListed(store.entries, store.backing.secrets, s);
        selectedId := Some(r.value.id);
        lastError := None;
        SavedEntry(old(State()), link, name, store.backing.readable, State(), r.value);
      } else {
        lastError := Some(CouldNotSave);
      }
      entries := store.entries;
    }

    /** `AddProfileFromUri`: a link that parses is stored and selected; anything else only sets the error. */
    method AddFromUri(uri: Text)
      requires Valid()
      modifies this`entries, this`selectedId, this`lastError, store, store.backing
      ensures Valid()
      ensures Applied(old(State()), AddProfileFromUri(uri), store.backing.readable, State())
    {
      var parsed := ParseUri(uri);
      if parsed.None? {
        lastError := Some(NotALink);
        return;
      }
      ParsedIsLinkable(uri);
      AddLink(parsed.value, NameFromUri(uri));
    }

    /** `RenameProfile`: the trimmed name, or the host when it is blank; ids and links stay. */
    method RenameTo(id: Id, name: Text)
      requires Valid()
      modifies this`entries, this`lastError, store, store.backing
      ensures Valid()
      ensures RenameOutcome(old(State()), id, name, store.backing.readable, State())
      ensures SameIdsAndLinks(store.View(), old(store.View()))
    {
      EntriesOfJoin(entries, store.backing.secrets);
      var r, _ := store.Rename(id, name);
      SameShape(entries, store.entries, old(store.backing.secrets), store.backing.secrets, selectedId);
      if r.Err? {
        lastError := Some(CouldNotRename);
      }
      entries := store.entries;
    }

    /** `DeleteProfile`: the selection is dropped only when the profile is really gone. */
    method DeleteById(id: Id)
      requires Valid()
      modifies this`entries, this`selectedId, this`lastError, store, store.backing
      ensures Valid()
      ensures DeleteOutcome(old(State()), id, State())
      ensures ListedId(entries, id) ==> lastError == Some(CouldNotDelete)
    {
      EntriesOfJoin(entries, store.backing.secrets);
      ghost var pos := Position(entries, id);
      var r, _ := store.Delete(id);
      if r.Ok? {
        if pos.Some? {
          RemovedList(entries, store.entries, old(store.backing.secrets), store.backing.secrets, pos.value);
        } else {
          EntriesOfView(store.entries, entries, store.backing.secrets, old(store.backing.secrets));
        }
        DeselectedOk(entries, pos, id, selectedId);
        if selectedId == Some(id) {
          selectedId := None;
        }
      } else {
        EntriesOfView(store.entries, entries, store.backing.secrets, old(store.backing.secrets));
        lastError := Some(CouldNotDelete);
      }
      entries := store.entries;
    }

    /** The intents that do not touch the store. */
    method SelectOrTunnel(intent: Intent)
      requires Valid() && (intent.SelectProfile? || intent.Connect? || intent.Disconnect?)
      modifies this`selectedId, this`lastError, this`calls
      ensures Valid()
      ensures Applied(old(State()), intent, store.backing.readable, State())
    {
      EntriesOfJoin(entries, store.backing.secrets);
      if intent.SelectProfile? {
        if ListedId(entries, intent.id) {
          selectedId := Some(intent.id);
        }
      } else if intent.Connect? {
        if selectedId.Some? {
          lastError := None;
          calls := calls + [Start(selectedId.value, entries)];
        } else {
          lastError := Some(SelectFirst);
        }
      } else {
        calls := calls + [Stop];
      }
    }

    /** `apply_intent`. */
    method ApplyIntent(intent: Intent)
      requires Valid()
      modifies this`entries, this`selectedId, this`lastError, this`calls, store, store.backing
      ensures Valid()
      ensures Applied(old(State()), intent, store.backing.readable, State())
    {
      match intent
      case AddProfileFromUri(uri) => AddFromUri(uri);
      case RenameProfile(id, name) => RenameTo(id, name);
      case DeleteProfile(id) => DeleteById(id);
      case _ => SelectOrTunnel(intent);
    }

    /** `export`: the stored link, printed with the display name if it is listed; none for an unknown id. */
    method Export(id: Id) returns (r: Result<Option<Text>>)
      requires Valid()
      ensures r.Err? ==> !store.backing.readable
      ensures r.Ok? ==>
                r.value == if id !in store.backing.secrets then None
                           else Some(ToUri(store.backing.secrets[id], ListedName(entries, id)))
      ensures r.Ok? && ListedId(entries, id) ==>
                var s := store.View()[Position(entries, id).value];
                r.value == Some(ToUri(s.link, Some(s.entry.name)))
    {
      var loaded := store.Load(id);
      if loaded.Err? {
        return Err(loaded.error);
      }
      if loaded.value.None? {
        return Ok(None);
      }
      var uri := ToUriWithName(loaded.value.value, ListedName(entries, id));
      return Ok(Some(uri));
    }

    /** One turn of `run_actor`. */
    method Handle(cmd: Command)
      requires Valid()
      modifies this, store, store.backing
      ensures Valid()
      ensures Next(old(State()), cmd, store.backing.readable, State())
    {
      match cmd {
        case Stats(counters) =>
          stats := stats + [counters];
        case ExportUri(id) =>
          var _ := Export(id);
        case OsStatus(state, error) =>
          EntriesOfJoin(entries, store.backing.secrets);
          connection := state;
          lastError := if error.Some? then Some(Os(error.value)) else None;
          snapshots := snapshots + [Snap()];
        case Do(intent) =>
          ApplyIntent(intent);
          EntriesOfJoin(entries, store.backing.secrets);
          snapshots := snapshots + [Snap()];
      }
    }

    /**
      `run_actor`: any commands take the actor through a run of the state machine. At its end the
      list shown is the store's, any selected profile is listed, the connection is the last status the
      OS reported, the tunnel was started and stopped by the connects and disconnects alone, every start
      named a profile listed at that moment, and there is one snapshot at startup and one per intent or
      OS status.
     */
    method Run(cmds: seq<Command>) returns (ghost trace: seq<App>)
      requires Valid() && snapshots == [Snap()] && stats == [] && calls == [] && connection == Disconnected
      modifies this, store, store.backing
      ensures Valid()
      ensures Follows(trace, cmds, store.backing.readable) && trace[0] == old(State()) && trace[|cmds|] == State()
      ensures connection == LastStatus(cmds)
      ensures |snapshots| == 1 + Shown(cmds) && snapshots[|snapshots| - 1] == Snap()
      ensures stats == Forwarded(cmds)
      ensures calls == CallsOf(trace, cmds)
    {
      trace := Drain(cmds);
      TunnelCalls(trace, cmds, store.backing.readable);
      Outputs(trace, cmds, store.backing.readable);
      EntriesOfJoin(entries, store.backing.secrets);
      EntriesOfJoin(old(entries), old(store.backing.secrets));
    }

    /** The loop itself. */
    method Drain(cmds: seq<Command>) returns (ghost trace: seq<App>)
      requires Valid()
      modifies this, store, store.backing
      ensures Valid()
      ensures Follows(trace, cmds, store.backing.readable) && trace[0] == old(State()) && trace[|cmds|] == State()
    {
      trace := [State()];
      for i := 0 to |cmds|
        invariant Valid()
        invariant Follows(trace, cmds[..i], store.backing.readable) && trace[0] == old(State()) && trace[i] == State()
      {
        Handle(cmds[i]);
        ghost var next := State();
        FollowsNext(trace, cmds, i, store.backing.readable, next);
        trace := trace + [next];
      }
      assert cmds[..|cmds|] == cmds;
    }

    /** Sharing a listed profile and importing the link again changes nothing but selects that profile. */
    method ShareThenImport(id: Id) returns (uri: Text)
      requires Valid() && store.backing.readable && ListedId(entries, id)
      modifies this`entries, this`selectedId, this`lastError, store, store.backing
      ensures Valid()
      ensures var s := old(store.View()[Position(entries, id).value]);
              uri == ToUri(s.link, Some(s.entry.name))
      ensures Applied(old(State()), AddProfileFromUri(uri), true, State())
      ensures store.View() == old(store.View()) && entries == old(entries)
      ensures selectedId == Some(id) && lastError == None
    {
      var r := Export(id);
      uri := r.value.value;
      ghost var i := Position(entries, id).value;
      ghost var s := store.View()[i];
      PrintedParses(s.link, Some(s.entry.name));
      AddFromUri(uri);
      SavedAgain(old(State()), s.link, NameFromUri(uri), State(), i);
      EntriesOfView(store.entries, old(store.entries), store.backing.secrets, old(store.backing.secrets));
    }
  }

  lemma {:induction false} RemovedList(a: seq<Entry>, b: seq<Entry>, s: map<Id, Profile>, t: map<Id, Profile>, pos: nat)
    requires Backed(a, s) && Backed(b, t) && pos < |a| && Join(b, t) == Remove(Join(a, s), pos)
    ensures b == Remove(a, pos)
    ensures AllLinkable(Join(a, s)) ==> AllLinkable(Join(b, t))
  {
    var from, to := Join(a, s), Join(b, t);
    forall i | 0 <= i < |b|
      ensures to[i] == from[if i < pos then i else i + 1] && b[i] == to[i].entry
    {
    }
  }

  lemma {:induction false} EntriesOfJoin(entries: seq<Entry>, secrets: map<Id, Profile>)
    requires Backed(entries, secrets)
    ensures Entries(Join(entries, secrets)) == entries
  {
  }

  lemma {:induction false} EntriesOfView(a: seq<Entry>, b: seq<Entry>, s: map<Id, Profile>, t: map<Id, Profile>)
    requires Backed(a, s) && Backed(b, t) && Join(a, s) == Join(b, t)
    ensures a == b
  {
    forall i | 0 <= i < |a|
      ensures a[i] == b[i]
    {
      assert Join(a, s)[i].entry == Join(b, t)[i].entry;
    }
  }
}
