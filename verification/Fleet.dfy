/**
 The agent registry of server/internal/fleet/fleet.go and the connection
 handlers of server/internal/websocket/websocket.go that share it.
 */
module Fleet {
  import opened Common

  type Node = string
  type Conn = nat

  datatype Heartbeat = Heartbeat(hostname: string, os: string, kernel: string)

  /** `lastHeartbeat` is kept as RFC 3339 text, that is, in whole seconds. */
  datatype Details = Details(hostname: string, mac: Node, os: string, kernel: string, status: string, lastHeartbeat: int)

  /** `closed` lists the connections the registry has closed when replacing them. */
  datatype Registry = Registry(
    agents: map<Node, Conn>, details: map<Node, Details>, activeJobs: map<Node, string>, closed: set<Conn>)

  const NoAgents: Registry := Registry(map[], map[], map[], {})

  function Registered(r: Registry, mac: Node, conn: Conn, p: Heartbeat, now: int): Registry {
    Registry(r.agents[mac := conn],
             r.details[mac := Details(p.hostname, mac, p.os, p.kernel, "Online", UnixSeconds(now) * SECOND)],
             r.activeJobs,
             if mac in r.agents && r.agents[mac] != conn then r.closed + {r.agents[mac]} else r.closed)
  }

  function Removed(r: Registry, mac: Node): Registry {
    r.(agents := r.agents - {mac}, activeJobs := r.activeJobs - {mac},
       details := if mac in r.details then r.details[mac := r.details[mac].(status := "offline")] else r.details)
  }

  function RemovedConn(r: Registry, mac: Node, conn: Conn): Registry {
    if mac in r.agents && r.agents[mac] == conn then Removed(r, mac) else r
  }

  /** The nodes whose last heartbeat lies before the cutoff. */
  function Stale(r: Registry, cutoff: int): set<Node> {
    set mac | mac in r.details && r.details[mac].lastHeartbeat < cutoff
  }

  function Pruned(r: Registry, cutoff: int): Registry {
    var stale := Stale(r, cutoff);
    r.(details := r.details - stale, agents := r.agents - stale, activeJobs := r.activeJobs - stale)
  }

  class AgentManager {
    var agents: map<Node, Conn>
    var details: map<Node, Details>
    var activeJobs: map<Node, string>
    ghost var closed: set<Conn>

    ghost function View(): Registry
      reads this
    {
      Registry(agents, details, activeJobs, closed)
    }

    constructor ()
      ensures View() == NoAgents
    {
      agents, details, activeJobs, closed := map[], map[], map[], {};
    }

    method Register(mac: Node, conn: Conn, p: Heartbeat, now: int)
      modifies this
      ensures agents == old(agents)[mac := conn] && activeJobs == old(activeJobs)
      ensures details.Keys == old(details).Keys + {mac} && forall k | k in old(details) && k != mac :: details[k] == old(details)[k]
      ensures details[mac].(lastHeartbeat := 0) == Details(p.hostname, mac, p.os, p.kernel, "Online", 0)
      ensures details[mac].lastHeartbeat % SECOND == 0 && details[mac].lastHeartbeat <= now < details[mac].lastHeartbeat + SECOND
      ensures closed == old(closed) + if mac in old(agents) && old(agents)[mac] != conn then {old(agents)[mac]} else {}
      ensures View() == Registered(old(View()), mac, conn, p, now)
    {
      if mac in agents && agents[mac] != conn {
        closed := closed + {agents[mac]};
      }
      agents := agents[mac := conn];
      details := details[mac := Details(p.hostname, mac, p.os, p.kernel, "Online", UnixSeconds(now) * SECOND)];
    }

    method Unregister(mac: Node)
      modifies this
      ensures agents == old(agents) - {mac} && activeJobs == old(activeJobs) - {mac} && closed == old(closed)
      ensures details.Keys == old(details).Keys
      ensures forall k | k in details ::
                details[k] == if k == mac then old(details)[k].(status := "offline") else old(details)[k]
      ensures View() == Removed(old(View()), mac)
    {
      agents := agents - {mac};
      activeJobs := activeJobs - {mac};
      if mac in details {
        details := details[mac := details[mac].(status := "offline")];
      }
    }

    method UnregisterConn(mac: Node, conn: Conn) returns (removed: bool)
      modifies this
      ensures removed <==> mac in old(agents) && old(agents)[mac] == conn
      ensures removed ==> agents == old(agents) - {mac} && activeJobs == old(activeJobs) - {mac} && details.Keys == old(details).Keys
      ensures removed ==> forall k | k in details ::
                details[k] == if k == mac then old(details)[k].(status := "offline") else old(details)[k]
      ensures !removed ==> View() == old(View())
      ensures View() == RemovedConn(old(View()), mac, conn)
    {
      if mac !in agents || agents[mac] != conn { return false; }
      Unregister(mac);
      return true;
    }

    method PruneStaleAgents(ttl: int, now: int)
      modifies this
      ensures forall k :: k in details <==> k in old(details) && old(details)[k].lastHeartbeat >= now - ttl
      ensures forall k | k in details :: details[k] == old(details)[k]
      ensures var gone := set k | k in old(details) && old(details)[k].lastHeartbeat < now - ttl;
              agents == old(agents) - gone && activeJobs == old(activeJobs) - gone && closed == old(closed)
      ensures View() == Pruned(old(View()), now - ttl)
    {
      var cutoff := now - ttl;
      var pending := details.Keys;
      ghost var gone: set<Node> := {};
      while pending != {}
        invariant pending <= old(details).Keys - gone
        invariant details == old(details) - gone && agents == old(agents) - gone && activeJobs == old(activeJobs) - gone
        invariant forall k | k in old(details) && k !in pending :: k in gone <==> old(details)[k].lastHeartbeat < cutoff
        invariant gone <= old(details).Keys && closed == old(closed)
        decreases pending
      {
        var mac :| mac in pending;
        pending := pending - {mac};
        if details[mac].lastHeartbeat < cutoff {
          details := details - {mac};
          agents := agents - {mac};
          activeJobs := activeJobs - {mac};
          gone := gone + {mac};
        }
      }
      assert gone == Stale(old(View()), cutoff);
    }

    /** A node is given to a job only while no job holds it. */
    method AcquireJob(mac: Node, job: string) returns (acquired: bool)
      modifies this`activeJobs
      ensures acquired <==> mac !in old(activeJobs)
      ensures activeJobs == if acquired then old(activeJobs)[mac := job] else old(activeJobs)
    {
      if mac in activeJobs { return false; }
      activeJobs := activeJobs[mac := job];
      return true;
    }

    method ReleaseJob(mac: Node)
      modifies this`activeJobs
      ensures activeJobs == old(activeJobs) - {mac}
    {
      activeJobs := activeJobs - {mac};
    }
  }

  // ----- connection handlers -----

  /** Flagging: Register has returned and `registered` is about to be set. */
  datatype Phase = Reading | Flagging | Ended

  datatype Handler = Handler(node: Node, registered: bool, phase: Phase)

  datatype Sys = Sys(registry: Registry, handlers: map<Conn, Handler>)

  datatype Action =
    | Connect(conn: Conn, node: Node)
    | Message(conn: Conn, reported: string, p: Heartbeat, now: int)
    | SetFlag(conn: Conn)
    | ReadError(conn: Conn)
    | Unregister(node: Node)
    | Prune(ttl: int, now: int)
    | Reset

  /** markOffline, after which the handler returns. */
  function Exit(s: Sys, conn: Conn): Sys
    requires conn in s.handlers
  {
    var h := s.handlers[conn];
    Sys(if h.registered then RemovedConn(s.registry, h.node, conn) else s.registry,
        s.handlers[conn := h.(phase := Ended)])
  }

  predicate IsReading(s: Sys, conn: Conn) {
    conn in s.handlers && s.handlers[conn].phase == Reading
  }

  /** One step; an action that cannot happen changes nothing. */
  function Next(s: Sys, a: Action): Sys {
    match a
    case Connect(conn, node) =>
      if conn in s.handlers then s else s.(handlers := s.handlers[conn := Handler(node, false, Reading)])
    case Message(conn, reported, p, now) =>
      if !IsReading(s, conn) then s
      else if reported != "" && reported != s.handlers[conn].node then Exit(s, conn)
      else Sys(Registered(s.registry, s.handlers[conn].node, conn, p, now),
               s.handlers[conn := s.handlers[conn].(phase := Flagging)])
    case SetFlag(conn) =>
      if conn in s.handlers && s.handlers[conn].phase == Flagging
      then s.(handlers := s.handlers[conn := s.handlers[conn].(registered := true, phase := Reading)]) else s
    case ReadError(conn) => if IsReading(s, conn) then Exit(s, conn) else s
    case Unregister(node) => s.(registry := Removed(s.registry, node))
    case Prune(ttl, now) => s.(registry := Pruned(s.registry, now - ttl))
    case Reset => s.(registry := s.registry.(agents := map[], details := map[], activeJobs := map[]))
  }

  function Run(acts: seq<Action>): Sys {
    if acts == [] then Sys(NoAgents, map[]) else Next(Run(acts[..|acts| - 1]), acts[|acts| - 1])
  }

  /** A handler that has registered its connection and has not returned. */
  predicate Active(s: Sys, conn: Conn) {
    conn in s.handlers && s.handlers[conn].phase != Ended && (s.handlers[conn].registered || s.handlers[conn].phase == Flagging)
  }

  /** Every entry points to a running handler that is authenticated as the entry's node. */
  ghost predicate EntriesAreLive(s: Sys) {
    forall mac | mac in s.registry.agents ::
      Active(s, s.registry.agents[mac]) && s.handlers[s.registry.agents[mac]].node == mac
  }

  lemma EntriesStayLive(s: Sys, a: Action)
    requires EntriesAreLive(s)
    ensures EntriesAreLive(Next(s, a))
  { }

  lemma {:induction false} RegistryIsLive(acts: seq<Action>)
    ensures EntriesAreLive(Run(acts))
  {
    if acts != [] {
      RegistryIsLive(acts[..|acts| - 1]);
      EntriesStayLive(Run(acts[..|acts| - 1]), acts[|acts| - 1]);
    }
  }

  /** Once all handlers of a node have ended, the node has no entry. */
  lemma NoHandlerNoEntry(acts: seq<Action>, mac: Node)
    requires forall c | c in Run(acts).handlers && Run(acts).handlers[c].node == mac :: Run(acts).handlers[c].phase == Ended
    ensures mac !in Run(acts).registry.agents
  {
    RegistryIsLive(acts);
  }

  /** The end of a handler removes its own entry and no other connection's. */
  lemma ExitRemovesOwnEntry(acts: seq<Action>, conn: Conn)
    requires conn in Run(acts).handlers
    ensures var s := Run(acts);
            var after := Exit(s, conn).registry.agents;
            && (forall mac | mac in s.registry.agents && s.registry.agents[mac] != conn ::
                  mac in after && after[mac] == s.registry.agents[mac])
            && (s.handlers[conn].phase == Reading ==> forall mac | mac in after :: after[mac] != conn)
  {
    RegistryIsLive(acts);
  }

  predicate OwnsEntry(s: Sys, conn: Conn) {
    conn in s.handlers && s.handlers[conn].node in s.registry.agents && s.registry.agents[s.handlers[conn].node] == conn
  }

  predicate Evicts(a: Action) {
    a.Unregister? || a.Prune? || a.Reset?
  }

  /** Action i of the run took the connection's entry away without closing it. */
  ghost predicate EvictedAt(acts: seq<Action>, i: nat, conn: Conn) {
    i < |acts| && Evicts(acts[i]) && OwnsEntry(Run(acts[..i]), conn) && !OwnsEntry(Run(acts[..i + 1]), conn)
  }

  /** One step takes an entry from a running connection by closing it or by eviction. */
  lemma EntryLostOnlyBy(s: Sys, a: Action, conn: Conn)
    requires EntriesAreLive(s) && Active(Next(s, a), conn) && !OwnsEntry(Next(s, a), conn)
    ensures Active(s, conn) && (OwnsEntry(s, conn) ==> conn in Next(s, a).registry.closed || Evicts(a))
    ensures s.registry.closed <= Next(s, a).registry.closed
  { }

  /**
   In every run, a running connection that registered still owns its entry,
   unless the registry closed it for a successor or the entry was evicted by
   Unregister, PruneStaleAgents or Reset.
   */
  lemma {:induction false} ReplacedConnectionsClosed(acts: seq<Action>, conn: Conn)
    requires Active(Run(acts), conn)
    ensures OwnsEntry(Run(acts), conn) || conn in Run(acts).registry.closed || exists i: nat :: EvictedAt(acts, i, conn)
  {
    if acts != [] && !OwnsEntry(Run(acts), conn) {
      var n := |acts| - 1;
      RegistryIsLive(acts[..n]);
      EntryLostOnlyBy(Run(acts[..n]), acts[n], conn);
      ReplacedConnectionsClosed(acts[..n], conn);
      assert acts[..n + 1] == acts;
      if OwnsEntry(Run(acts[..n]), conn) {
        assert Evicts(acts[n]) ==> EvictedAt(acts, n, conn);
      } else if i: nat :| EvictedAt(acts[..n], i, conn) {
        assert acts[..n][..i] == acts[..i] && acts[..n][..i + 1] == acts[..i + 1];
        assert EvictedAt(acts, i, conn);
      }
    }
  }

  // ----- heartbeats -----

  /** A heartbeat of a running handler that names its own node or none. */
  predicate Heard(s: Sys, a: Action, mac: Node) {
    a.Message? && IsReading(s, a.conn) && s.handlers[a.conn].node == mac && (a.reported == "" || a.reported == mac)
  }

  /** A node's heartbeat gives the node to the connection it came from. */
  lemma HeartbeatRegisters(s: Sys, a: Action, mac: Node)
    requires Heard(s, a, mac)
    ensures var r := Next(s, a).registry;
            && r.agents == s.registry.agents[mac := a.conn] && mac in r.details && r.activeJobs == s.registry.activeJobs
            && r.details[mac].status == "Online" && r.details[mac].lastHeartbeat == UnixSeconds(a.now) * SECOND
  { }

  /** A heartbeat that names another node ends its handler and registers nothing. */
  lemma MismatchEndsHandler(s: Sys, a: Action)
    requires a.Message? && IsReading(s, a.conn) && a.reported != "" && a.reported != s.handlers[a.conn].node
    requires EntriesAreLive(s)
    ensures var s' := Next(s, a);
            && s'.handlers[a.conn].phase == Ended
            && forall mac :: mac in s'.registry.agents ==>
                 s'.registry.agents[mac] != a.conn && mac in s.registry.agents && s'.registry.agents[mac] == s.registry.agents[mac]
  { }

  /** The time of the last heartbeat of the node in a run. */
  function LastHeard(acts: seq<Action>, mac: Node): Option<int> {
    if acts == [] then None
    else
      var n := |acts| - 1;
      if Heard(Run(acts[..n]), acts[n], mac) then Some(acts[n].now) else LastHeard(acts[..n], mac)
  }

  /** What the registry keeps of the last heartbeats. */
  ghost predicate HeartbeatsKept(s: Sys, acts: seq<Action>) {
    && (forall mac | mac in s.registry.agents :: mac in s.registry.details)
    && (forall mac | mac in s.registry.details ::
          LastHeard(acts, mac).Some? && s.registry.details[mac].lastHeartbeat == UnixSeconds(LastHeard(acts, mac).value) * SECOND)
  }

  lemma NotHeardNotUpdated(s: Sys, a: Action, mac: Node)
    requires !Heard(s, a, mac) && mac in Next(s, a).registry.details
    ensures mac in s.registry.details
    ensures Next(s, a).registry.details[mac].lastHeartbeat == s.registry.details[mac].lastHeartbeat
  { }

  lemma EntriesKeepDetails(s: Sys, a: Action)
    requires forall mac | mac in s.registry.agents :: mac in s.registry.details
    ensures forall mac | mac in Next(s, a).registry.agents :: mac in Next(s, a).registry.details
  { }

  lemma {:induction false} HeartbeatsAreKept(acts: seq<Action>)
    ensures HeartbeatsKept(Run(acts), acts)
  {
    if acts != [] {
      var n := |acts| - 1;
      var s := Run(acts[..n]);
      HeartbeatsAreKept(acts[..n]);
      EntriesKeepDetails(s, acts[n]);
      forall mac | mac in Run(acts).registry.details
        ensures LastHeard(acts, mac).Some?
        ensures Run(acts).registry.details[mac].lastHeartbeat == UnixSeconds(LastHeard(acts, mac).value) * SECOND
      {
        if Heard(s, acts[n], mac) {
          HeartbeatRegisters(s, acts[n], mac);
        } else {
          NotHeardNotUpdated(s, acts[n], mac);
        }
      }
    }
  }

  /** In every run, pruning evicts a node's connection exactly when the second of its last heartbeat lies before the cutoff. */
  lemma PruneEvictsIff(acts: seq<Action>, ttl: int, now: int, mac: Node)
    requires mac in Run(acts).registry.agents
    ensures LastHeard(acts, mac).Some?
    ensures var agents := Next(Run(acts), Prune(ttl, now)).registry.agents;
            && (mac in agents <==> now - ttl <= UnixSeconds(LastHeard(acts, mac).value) * SECOND)
            && (mac in agents ==> agents[mac] == Run(acts).registry.agents[mac])
  {
    HeartbeatsAreKept(acts);
  }
}
