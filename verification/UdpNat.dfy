/** The per-source UDP NAT and the counters of the loop that drives it. */
module UdpNat {
  import opened Bytes

  /** An app endpoint. */
  type Addr = nat
  /** An upstream session handle. */
  type ConnId = nat

  /** Idle time, in milliseconds, after which a session is reaped. */
  const UDP_IDLE: nat := 300_000

  datatype Session = Session(conn: ConnId, lastActivity: nat)
  datatype Outcome = Sent(opens: bool) | Dropped(opens: bool)

  type Table = map<Addr, Session>

  function Since(now: nat, then_: nat): nat {
    if now >= then_ then now - then_ else 0
  }

  /** `idle_keys`. */
  function IdleKeys(table: Table, now: nat, idle: nat): set<Addr> {
    set src | src in table && Since(now, table[src].lastActivity) > idle
  }

  /** What `reap_idle` leaves. */
  function Reaped(table: Table, now: nat, idle: nat): Table {
    table - IdleKeys(table, now, idle)
  }

  /** `get_or_create`; `created` is what the transport would hand out for a new session. */
  function Touched(table: Table, max: nat, src: Addr, now: nat, created: Option<ConnId>): Table {
    if src in table then table[src := table[src].(lastActivity := now)]
    else if |table| >= max || created.None? then table
    else table[src := Session(created.value, now)]
  }

  function Used(table: Table, max: nat, src: Addr, created: Option<ConnId>): Option<ConnId> {
    if src in table then Some(table[src].conn)
    else if |table| >= max then None
    else created
  }

  /** `forward`: what is reported for a datagram. */
  function Report(table: Table, max: nat, src: Addr, created: Option<ConnId>, sendOk: bool): Outcome {
    if Used(table, max, src, created).None? then Dropped(false)
    else if sendOk then Sent(src !in table)
    else Dropped(src !in table)
  }

  /** A known source keeps its session, a new one gets a session while there is room; the session used is stamped. */
  lemma {:induction false} ForwardMeans(
      table: Table, max: nat, src: Addr, now: nat, created: Option<ConnId>, sendOk: bool)
    ensures var conn, r := Used(table, max, src, created), Report(table, max, src, created, sendOk);
            && (src in table ==> conn == Some(table[src].conn))
            && (src !in table ==> conn == if |table| < max then created else None)
            && Touched(table, max, src, now, created) ==
                 (if conn.Some? then table[src := Session(conn.value, now)] else table)
            && (r.Sent? <==> conn.Some? && sendOk) && (r.opens <==> conn.Some? && src !in table)
  {
  }

  lemma {:induction false} OneFewer(table: Table, all: set<Addr>, keys: set<Addr>, src: Addr)
    requires src in keys && keys <= all
    ensures table - (all - keys) - {src} == table - (all - (keys - {src}))
  {
    assert all - (keys - {src}) == all - keys + {src};
  }

  class Sessions {
    var table: Table
    const max: nat

    constructor (max: nat)
      ensures table == map[] && this.max == max
    {
      table := map[];
      this.max := max;
    }

    method GetOrCreate(src: Addr, now: nat, created: Option<ConnId>) returns (conn: Option<ConnId>)
      modifies this
      ensures table == Touched(old(table), max, src, now, created)
      ensures conn == Used(old(table), max, src, created)
      ensures src !in old(table) ==> conn == if |old(table)| < max then created else None
      ensures table == if conn.Some? then old(table)[src := Session(conn.value, now)] else old(table)
      ensures |old(table)| <= max ==> |table| <= max
    {
      if src in table {
        table := table[src := table[src].(lastActivity := now)];
        assert table.Keys == old(table.Keys);
        return Some(table[src].conn);
      }
      if |table| >= max {
        return None;
      }
      if created.None? {
        return None;
      }
      table := table[src := Session(created.value, now)];
      return created;
    }

    method Forward(src: Addr, now: nat, created: Option<ConnId>, sendOk: bool) returns (r: Outcome)
      modifies this
      ensures table == Touched(old(table), max, src, now, created)
      ensures r == Report(old(table), max, src, created, sendOk)
      ensures r.opens <==> src in table && src !in old(table)
      ensures r.Sent? <==> sendOk && (src in old(table) || (|old(table)| < max && created.Some?))
    {
      var alreadyOpen := src in table;
      var conn := GetOrCreate(src, now, created);
      if conn.None? {
        return Dropped(false);
      }
      return if sendOk then Sent(!alreadyOpen) else Dropped(!alreadyOpen);
    }

    /** `reap_idle`: remove the idle sessions one by one. */
    method ReapIdle(now: nat, idle: nat)
      modifies this
      ensures table == Reaped(old(table), now, idle)
      ensures forall src :: src in table <==> src in old(table) && Since(now, old(table)[src].lastActivity) <= idle
    {
      var keys := IdleKeys(table, now, idle);
      ghost var all := keys;
      assert table - (all - keys) == table;
      while keys != {}
        invariant keys <= all && table == old(table) - (all - keys)
        decreases |keys|
      {
        var src :| src in keys;
        OneFewer(old(table), all, keys, src);
        table := table - {src};
        keys := keys - {src};
      }
      assert all - {} == all;
    }
  }

  // ----- the loop's accounting -----

  datatype Event =
    | Datagram(src: Addr, len: nat, now: nat, created: Option<ConnId>, sendOk: bool)
    | GcTick(now: nat)
    | TcpAccepted
    | RelayWrote(len: nat)
    | RelayRead(len: nat)
    | RelayEnded(ok: bool)
    | Reply(len: nat)

  /** What became of one datagram. */
  datatype Logged = Logged(outcome: Outcome, len: nat)

  /** The loop's state; the fields from `reaped` on are kept to state what the counters mean. */
  datatype Loop = Loop(
    table: Table,
    tx: nat,
    rx: nat,
    tcpFlows: nat,
    udpSessions: nat,
    flowErrors: nat,
    permits: nat,
    relays: nat,
    reaped: nat,
    refused: nat,
    relaysEnded: nat,
    relaysFailed: nat,
    log: seq<Logged>)

  datatype Limits = Limits(maxTcpFlows: nat, maxUdpSessions: nat)

  function Start(limits: Limits): Loop {
    Loop(map[], 0, 0, 0, 0, 0, limits.maxTcpFlows, 0, 0, 0, 0, 0, [])
  }

  function Step(limits: Limits, s: Loop, e: Event): Loop {
    match e
    case Datagram(src, len, now, created, sendOk) =>
      var r := Report(s.table, limits.maxUdpSessions, src, created, sendOk);
      s.(table := Touched(s.table, limits.maxUdpSessions, src, now, created),
         tx := if r.Sent? then s.tx + len else s.tx,
         flowErrors := if r.Dropped? then s.flowErrors + 1 else s.flowErrors,
         udpSessions := if r.opens then s.udpSessions + 1 else s.udpSessions,
         log := s.log + [Logged(r, len)])
    case GcTick(now) =>
      s.(table := Reaped(s.table, now, UDP_IDLE),
         reaped := s.reaped + |IdleKeys(s.table, now, UDP_IDLE)|)
    case TcpAccepted =>
      if s.permits == 0 then s.(tcpFlows := s.tcpFlows + 1, refused := s.refused + 1)
      else s.(tcpFlows := s.tcpFlows + 1, permits := s.permits - 1, relays := s.relays + 1)
    case RelayWrote(len) => s.(tx := s.tx + len)
    case RelayRead(len) => s.(rx := s.rx + len)
    case Reply(len) => s.(rx := s.rx + len)
    case RelayEnded(ok) =>
      if s.relays == 0 then s
      else s.(relays := s.relays - 1, permits := s.permits + 1, relaysEnded := s.relaysEnded + 1,
              relaysFailed := if ok then s.relaysFailed else s.relaysFailed + 1,
              flowErrors := if ok then s.flowErrors else s.flowErrors + 1)
  }

  function Run(limits: Limits, s: Loop, es: seq<Event>): Loop {
    if es == [] then s else Step(limits, Run(limits, s, es[..|es| - 1]), es[|es| - 1])
  }

  function Datagrams(es: seq<Event>): nat {
    if es == [] then 0 else Datagrams(es[..|es| - 1]) + (if es[|es| - 1].Datagram? then 1 else 0)
  }

  /** The sizes of the app's datagrams, in order. */
  function DatagramLens(es: seq<Event>): seq<nat> {
    if es == [] then []
    else
      var before, e := DatagramLens(es[..|es| - 1]), es[|es| - 1];
      if e.Datagram? then before + [e.len] else before
  }

  /** Bytes that relays wrote to the tunnel. */
  function RelayedUp(es: seq<Event>): nat {
    if es == [] then 0 else RelayedUp(es[..|es| - 1]) + (if es[|es| - 1].RelayWrote? then es[|es| - 1].len else 0)
  }

  /** Bytes that relays read from the tunnel, and bytes of replies to datagrams. */
  function BroughtDown(es: seq<Event>): nat {
    if es == [] then 0
    else
      var before, e := BroughtDown(es[..|es| - 1]), es[|es| - 1];
      if e.RelayRead? || e.Reply? then before + e.len else before
  }

  function Accepts(es: seq<Event>): nat {
    if es == [] then 0 else Accepts(es[..|es| - 1]) + (if es[|es| - 1].TcpAccepted? then 1 else 0)
  }

  function LogLens(log: seq<Logged>): seq<nat> {
    if log == [] then [] else LogLens(log[..|log| - 1]) + [log[|log| - 1].len]
  }

  function CountSent(log: seq<Logged>): nat {
    if log == [] then 0 else CountSent(log[..|log| - 1]) + (if log[|log| - 1].outcome.Sent? then 1 else 0)
  }

  function CountDropped(log: seq<Logged>): nat {
    if log == [] then 0 else CountDropped(log[..|log| - 1]) + (if log[|log| - 1].outcome.Dropped? then 1 else 0)
  }

  function CountOpened(log: seq<Logged>): nat {
    if log == [] then 0 else CountOpened(log[..|log| - 1]) + (if log[|log| - 1].outcome.opens then 1 else 0)
  }

  function SentBytes(log: seq<Logged>): nat {
    if log == [] then 0
    else SentBytes(log[..|log| - 1]) + (if log[|log| - 1].outcome.Sent? then log[|log| - 1].len else 0)
  }

  /** The table never outgrows its cap, and every session opened is live or was reaped. */
  predicate SessionsBalance(limits: Limits, s: Loop) {
    && |s.table| <= limits.maxUdpSessions
    && s.udpSessions == |s.table| + s.reaped == CountOpened(s.log)
  }

  /**
    The log has one entry per datagram, in order. Every datagram was sent or raised the error
    count; the rest of that count are failed relays. The byte counters hold the bytes of the datagrams
    sent, of what relays moved and of the replies, and nothing else.
   */
  predicate DatagramsBalance(s: Loop, es: seq<Event>) {
    && LogLens(s.log) == DatagramLens(es)
    && s.flowErrors == CountDropped(s.log) + s.relaysFailed
    && CountSent(s.log) + s.flowErrors == Datagrams(es) + s.relaysFailed
    && s.tx == SentBytes(s.log) + RelayedUp(es)
    && s.rx == BroughtDown(es)
  }

  /** How many relays are running: one more per flow accepted below the cap, one fewer per relay that ended. */
  function Running(max: nat, es: seq<Event>): (n: nat)
    ensures n <= max
  {
    if es == [] then 0
    else
      var n, e := Running(max, es[..|es| - 1]), es[|es| - 1];
      if e.TcpAccepted? && n < max then n + 1
      else if e.RelayEnded? && n > 0 then n - 1
      else n
  }

  /** Flows accepted while as many relays as allowed were running. */
  function TurnedAway(max: nat, es: seq<Event>): nat {
    if es == [] then 0
    else
      var before, e := es[..|es| - 1], es[|es| - 1];
      TurnedAway(max, before) + if e.TcpAccepted? && Running(max, before) == max then 1 else 0
  }

  /** Relays that ended in an error. */
  function FailedRelays(max: nat, es: seq<Event>): nat {
    if es == [] then 0
    else
      var before, e := es[..|es| - 1], es[|es| - 1];
      FailedRelays(max, before) + if e == RelayEnded(false) && Running(max, before) > 0 then 1 else 0
  }

  /**
    Permits are conserved, relays run, are refused and fail as the events say, and every flow is being
    relayed, was relayed, or was refused.
   */
  predicate FlowsBalance(limits: Limits, s: Loop, es: seq<Event>) {
    && s.permits + s.relays == limits.maxTcpFlows && s.relays == Running(limits.maxTcpFlows, es)
    && s.refused == TurnedAway(limits.maxTcpFlows, es) && s.relaysFailed == FailedRelays(limits.maxTcpFlows, es)
    && s.tcpFlows == Accepts(es) == s.relays + s.relaysEnded + s.refused
  }

  /** What every run keeps. */
  predicate Balanced(limits: Limits, s: Loop, es: seq<Event>) {
    SessionsBalance(limits, s) && DatagramsBalance(s, es) && FlowsBalance(limits, s, es)
  }

  lemma {:induction false} LogStep(log: seq<Logged>, r: Logged)
    ensures CountSent(log + [r]) == CountSent(log) + (if r.outcome.Sent? then 1 else 0)
    ensures CountDropped(log + [r]) == CountDropped(log) + (if r.outcome.Dropped? then 1 else 0)
    ensures CountOpened(log + [r]) == CountOpened(log) + (if r.outcome.opens then 1 else 0)
    ensures SentBytes(log + [r]) == SentBytes(log) + (if r.outcome.Sent? then r.len else 0)
    ensures LogLens(log + [r]) == LogLens(log) + [r.len]
  {
    assert (log + [r])[..|log|] == log;
  }

  lemma {:induction false} TouchedSize(
      table: Table, max: nat, src: Addr, now: nat, created: Option<ConnId>, sendOk: bool)
    ensures |Touched(table, max, src, now, created)| ==
            |table| + (if Report(table, max, src, created, sendOk).opens then 1 else 0)
    ensures |table| <= max ==> |Touched(table, max, src, now, created)| <= max
  {
    if src in table {
      assert table[src := table[src].(lastActivity := now)].Keys == table.Keys;
    } else if created.Some? {
      assert table[src := Session(created.value, now)].Keys == table.Keys + {src};
    }
  }

  lemma {:induction false} ReapedSize(table: Table, now: nat, idle: nat)
    ensures |Reaped(table, now, idle)| + |IdleKeys(table, now, idle)| == |table|
  {
    var keys := IdleKeys(table, now, idle);
    var left := Reaped(table, now, idle);
    assert left.Keys == table.Keys - keys && keys <= table.Keys;
    assert |left.Keys| == |table.Keys| - |keys|;
  }

  /** What a datagram adds to the sums over the events. */
  lemma {:induction false} DatagramEvents(max: nat, es: seq<Event>, e: Event)
    requires e.Datagram?
    ensures var now := es + [e];
            && Datagrams(now) == Datagrams(es) + 1 && DatagramLens(now) == DatagramLens(es) + [e.len]
            && RelayedUp(now) == RelayedUp(es) && BroughtDown(now) == BroughtDown(es) && Accepts(now) == Accepts(es)
            && Running(max, now) == Running(max, es) && TurnedAway(max, now) == TurnedAway(max, es)
            && FailedRelays(max, now) == FailedRelays(max, es)
  {
    assert (es + [e])[..|es|] == es;
  }

  lemma {:induction false} DatagramBalances(limits: Limits, s: Loop, es: seq<Event>, e: Event)
    requires Balanced(limits, s, es) && e.Datagram?
    ensures Balanced(limits, Step(limits, s, e), es + [e])
  {
    DatagramEvents(limits.maxTcpFlows, es, e);
    var max := limits.maxUdpSessions;
    TouchedSize(s.table, max, e.src, e.now, e.created, e.sendOk);
    LogStep(s.log, Logged(Report(s.table, max, e.src, e.created, e.sendOk), e.len));
  }

  lemma {:induction false} BytesBalance(limits: Limits, s: Loop, es: seq<Event>, e: Event)
    requires Balanced(limits, s, es) && (e.RelayWrote? || e.RelayRead? || e.Reply?)
    ensures Balanced(limits, Step(limits, s, e), es + [e])
  {
    assert (es + [e])[..|es|] == es;
  }

  lemma {:induction false} FlowBalances(limits: Limits, s: Loop, es: seq<Event>, e: Event)
    requires Balanced(limits, s, es) && (e.TcpAccepted? || e.RelayEnded?)
    ensures Balanced(limits, Step(limits, s, e), es + [e])
  {
    assert (es + [e])[..|es|] == es;
  }

  lemma {:induction false} SweepBalances(limits: Limits, s: Loop, es: seq<Event>, e: Event)
    requires Balanced(limits, s, es) && e.GcTick?
    ensures Balanced(limits, Step(limits, s, e), es + [e])
  {
    assert (es + [e])[..|es|] == es;
    ReapedSize(s.table, e.now, UDP_IDLE);
  }

  lemma {:induction false} BalancedStep(limits: Limits, s: Loop, es: seq<Event>, e: Event)
    requires Balanced(limits, s, es)
    ensures Balanced(limits, Step(limits, s, e), es + [e])
  {
    if e.Datagram? {
      DatagramBalances(limits, s, es, e);
    } else if e.GcTick? {
      SweepBalances(limits, s, es, e);
    } else if e.TcpAccepted? || e.RelayEnded? {
      FlowBalances(limits, s, es, e);
    } else {
      BytesBalance(limits, s, es, e);
    }
  }

  /** Conservation over every run of datagrams, sweeps, accepted flows and finished relays. */
  lemma {:induction false} EveryRunBalances(limits: Limits, es: seq<Event>)
    ensures Balanced(limits, Run(limits, Start(limits), es), es)
  {
    if es != [] {
      EveryRunBalances(limits, es[..|es| - 1]);
      BalancedStep(limits, Run(limits, Start(limits), es[..|es| - 1]), es[..|es| - 1], es[|es| - 1]);
      assert es[..|es| - 1] + [es[|es| - 1]] == es;
    }
  }

  // ----- stability -----

  predicate From(e: Event, src: Addr) { e.Datagram? && e.src == src }

  predicate Timed(e: Event) { e.Datagram? || e.GcTick? }

  /** Events happen in order, none before t. */
  predicate InOrder(es: seq<Event>, t: nat) {
    && (forall i :: 0 <= i < |es| && Timed(es[i]) ==> t <= es[i].now)
    && (forall i, j :: 0 <= i < j < |es| && Timed(es[i]) && Timed(es[j]) ==> es[i].now <= es[j].now)
  }

  /** When the source was last heard, starting from t. */
  function LastHeard(es: seq<Event>, src: Addr, t: nat): nat {
    if es == [] then t
    else if From(es[|es| - 1], src) then es[|es| - 1].now
    else LastHeard(es[..|es| - 1], src, t)
  }

  /** Each datagram of the source comes within the idle window of the one before it. */
  predicate Steady(es: seq<Event>, src: Addr, t: nat) {
    forall n :: 0 <= n < |es| && From(es[n], src) ==> es[n].now <= LastHeard(es[..n], src, t) + UDP_IDLE
  }

  lemma {:induction false} Silence(es: seq<Event>, src: Addr, t: nat, k: nat, n: nat)
    requires k <= n <= |es| && forall i :: k <= i < n ==> !From(es[i], src)
    ensures LastHeard(es[..n], src, t) == LastHeard(es[..k], src, t)
    decreases n
  {
    if k < n {
      Silence(es, src, t, k, n - 1);
      assert es[..n][..n - 1] == es[..n - 1];
    }
  }

  lemma {:induction false} NextHeard(es: seq<Event>, src: Addr, k: nat) returns (n: nat)
    requires k < |es| && From(es[|es| - 1], src)
    ensures k <= n < |es| && From(es[n], src) && forall i :: k <= i < n ==> !From(es[i], src)
  {
    n := k;
    while !From(es[n], src)
      invariant k <= n < |es| && forall i :: k <= i < n ==> !From(es[i], src)
      decreases |es| - n
    {
      n := n + 1;
    }
  }

  /** A sweep between two datagrams of a steady source finds it active. */
  lemma {:induction false} SweepSpares(es: seq<Event>, src: Addr, t: nat, k: nat)
    requires InOrder(es, t) && Steady(es, src, t)
    requires k < |es| && es[k].GcTick? && From(es[|es| - 1], src)
    ensures Since(es[k].now, LastHeard(es[..k], src, t)) <= UDP_IDLE
  {
    var n := NextHeard(es, src, k);
    Silence(es, src, t, k, n);
    assert es[k].now <= es[n].now;
  }

  /** No sweep among the first n events finds the source silent for longer than the window. */
  predicate Unswept(es: seq<Event>, src: Addr, t: nat, n: nat) {
    n <= |es| &&
    forall k :: 0 <= k < n && es[k].GcTick? ==> Since(es[k].now, LastHeard(es[..k], src, t)) <= UDP_IDLE
  }

  lemma {:induction false} KeptUpTo(
      limits: Limits, s: Loop, es: seq<Event>, src: Addr, conn: ConnId, t: nat, n: nat)
    requires src in s.table && s.table[src] == Session(conn, t) && Unswept(es, src, t, n)
    ensures src in Run(limits, s, es[..n]).table
    ensures Run(limits, s, es[..n]).table[src] == Session(conn, LastHeard(es[..n], src, t))
    decreases n
  {
    if n > 0 {
      KeptUpTo(limits, s, es, src, conn, t, n - 1);
      assert es[..n][..n - 1] == es[..n - 1];
    }
  }

  /** The source's session, if it has one, is another one. */
  predicate Gone(table: Table, src: Addr, conn: ConnId) {
    src in table ==> table[src].conn != conn
  }

  /** The transport never hands out the same session twice. */
  predicate NeverAgain(es: seq<Event>, src: Addr, conn: ConnId) {
    forall k :: 0 <= k < |es| && From(es[k], src) ==> es[k].created != Some(conn)
  }

  lemma {:induction false} GoneForGood(
      limits: Limits, s: Loop, es: seq<Event>, src: Addr, conn: ConnId, k: nat, n: nat)
    requires k <= n <= |es| && NeverAgain(es, src, conn) && Gone(Run(limits, s, es[..k]).table, src, conn)
    ensures Gone(Run(limits, s, es[..n]).table, src, conn)
    decreases n
  {
    if k < n {
      GoneForGood(limits, s, es, src, conn, k, n - 1);
      assert es[..n][..n - 1] == es[..n - 1];
    }
  }

  lemma {:induction false} FirstSweep(es: seq<Event>, src: Addr, t: nat, n: nat) returns (k: nat)
    requires n <= |es| && !Unswept(es, src, t, n)
    ensures k < n && es[k].GcTick? && Since(es[k].now, LastHeard(es[..k], src, t)) > UDP_IDLE
    ensures Unswept(es, src, t, k)
  {
    k := n - 1;
    if !Unswept(es, src, t, k) {
      k := FirstSweep(es, src, t, k);
    }
  }

  /** A datagram goes out through the session its source started with exactly when no sweep came in between. */
  lemma {:induction false} KeepsSessionIff(
      limits: Limits, s: Loop, es: seq<Event>, src: Addr, conn: ConnId, t: nat, n: nat)
    requires src in s.table && s.table[src] == Session(conn, t) && NeverAgain(es, src, conn)
    requires n < |es| && From(es[n], src)
    ensures Used(Run(limits, s, es[..n]).table, limits.maxUdpSessions, src, es[n].created) == Some(conn)
            <==> Unswept(es, src, t, n)
  {
    if Unswept(es, src, t, n) {
      KeptUpTo(limits, s, es, src, conn, t, n);
    } else {
      var k := FirstSweep(es, src, t, n);
      KeptUpTo(limits, s, es, src, conn, t, k);
      assert es[..k + 1][..k] == es[..k];
      assert src !in Run(limits, s, es[..k + 1]).table;
      GoneForGood(limits, s, es, src, conn, k + 1, n);
    }
  }

  /** A source that is never silent for longer than the window is never swept. */
  lemma {:induction false} SteadyIsUnswept(es: seq<Event>, src: Addr, t: nat, n: nat)
    requires InOrder(es, t) && Steady(es, src, t) && n < |es| && From(es[n], src)
    ensures Unswept(es, src, t, n)
  {
    var upTo := es[..n + 1];
    forall m | 0 <= m < |upTo| && From(upTo[m], src)
      ensures upTo[m].now <= LastHeard(upTo[..m], src, t) + UDP_IDLE
    {
      assert upTo[..m] == es[..m];
    }
    forall k | 0 <= k < n && es[k].GcTick?
      ensures Since(es[k].now, LastHeard(es[..k], src, t)) <= UDP_IDLE
    {
      SweepSpares(upTo, src, t, k);
      assert upTo[..k] == es[..k];
    }
  }

  /**
    A source whose datagrams are never more than the idle window apart keeps the same upstream
    session: every one of them, up to the last, goes out through the session it started with.
   */
  lemma {:induction false} SteadySourceKeepsSession(
      limits: Limits, s: Loop, es: seq<Event>, src: Addr, conn: ConnId, t: nat, n: nat)
    requires src in s.table && s.table[src] == Session(conn, t)
    requires InOrder(es, t) && Steady(es, src, t)
    requires n < |es| && From(es[n], src)
    ensures Used(Run(limits, s, es[..n]).table, limits.maxUdpSessions, src, es[n].created) == Some(conn)
    ensures !Report(Run(limits, s, es[..n]).table, limits.maxUdpSessions, src, es[n].created, es[n].sendOk).opens
  {
    SteadyIsUnswept(es, src, t, n);
    KeptUpTo(limits, s, es, src, conn, t, n);
  }

  /** However little longer than the window, a sweep then is enough to lose it. */
  lemma {:induction false} LateSourceLosesSession(limits: Limits, s: Loop, src: Addr, conn: ConnId, t: nat, now: nat)
    requires src in s.table && s.table[src] == Session(conn, t) && now > t + UDP_IDLE
    ensures src !in Run(limits, s, [GcTick(now)]).table
  {
    var es := [GcTick(now)];
    assert es[..0] == [];
  }

  /** The running loop. */
  class Dataplane {
    const limits: Limits
    const sessions: Sessions
    var tx: nat
    var rx: nat
    var tcpFlows: nat
    var udpSessions: nat
    var flowErrors: nat
    var permits: nat
    var relays: nat
    ghost var reaped: nat
    ghost var refused: nat
    ghost var relaysEnded: nat
    ghost var relaysFailed: nat
    ghost var log: seq<Logged>

    ghost function View(): Loop
      reads this, sessions
    {
      Loop(sessions.table, tx, rx, tcpFlows, udpSessions, flowErrors, permits, relays,
           reaped, refused, relaysEnded, relaysFailed, log)
    }

    ghost predicate Valid()
      reads this
    {
      sessions.max == limits.maxUdpSessions
    }

    constructor (limits: Limits)
      ensures Valid() && this.limits == limits && View() == Start(limits) && fresh(sessions)
    {
      this.limits := limits;
      sessions := new Sessions(limits.maxUdpSessions);
      tx, rx, tcpFlows, udpSessions, flowErrors := 0, 0, 0, 0, 0;
      permits, relays := limits.maxTcpFlows, 0;
      reaped, refused, relaysEnded, relaysFailed, log := 0, 0, 0, 0, [];
    }

    /** The arm for an app datagram. */
    method OnDatagram(e: Event)
      requires Valid() && e.Datagram?
      modifies this, sessions
      ensures Valid() && View() == Step(limits, old(View()), e)
    {
      var r := sessions.Forward(e.src, e.now, e.created, e.sendOk);
      log := log + [Logged(r, e.len)];
      if r.Sent? {
        tx := tx + e.len;
      } else {
        flowErrors := flowErrors + 1;
      }
      if r.opens {
        udpSessions := udpSessions + 1;
      }
    }

    /** One turn of the `select!` loop. */
    method Handle(e: Event)
      requires Valid()
      modifies this, sessions
      ensures Valid() && View() == Step(limits, old(View()), e)
    {
      match e
      case Datagram(_, _, _, _, _) =>
        OnDatagram(e);
      case GcTick(now) =>
        reaped := reaped + |IdleKeys(sessions.table, now, UDP_IDLE)|;
        sessions.ReapIdle(now, UDP_IDLE);
      case TcpAccepted =>
        tcpFlows := tcpFlows + 1;
        if permits > 0 {
          permits, relays := permits - 1, relays + 1;
        } else {
          refused := refused + 1;
        }
      case RelayWrote(len) =>
        tx := tx + len;
      case RelayRead(len) =>
        rx := rx + len;
      case Reply(len) =>
        rx := rx + len;
      case RelayEnded(ok) =>
        if relays > 0 {
          relays, permits, relaysEnded := relays - 1, permits + 1, relaysEnded + 1;
          if !ok {
            flowErrors, relaysFailed := flowErrors + 1, relaysFailed + 1;
          }
        }
    }

    /** The loop over a run of events, from a fresh start: the books balance at the end. */
    method Orchestrate(es: seq<Event>)
      requires Valid() && View() == Start(limits)
      modifies this, sessions
      ensures Valid() && View() == Run(limits, Start(limits), es)
      ensures Balanced(limits, View(), es)
    {
      for i := 0 to |es|
        invariant Valid() && View() == Run(limits, Start(limits), es[..i])
      {
        assert es[..i + 1][..i] == es[..i];
        Handle(es[i]);
      }
      assert es[..|es|] == es;
      EveryRunBalances(limits, es);
    }
  }
}
