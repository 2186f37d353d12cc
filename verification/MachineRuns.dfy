/** Runs of a machine: starts, synchronisations, turns of the node monitors and closes in any order. */
module MachineRuns {
  import opened Formats
  import opened Controller
  import opened Nodes
  import opened Machine
  import S = Sing

  /** Anything that can happen to a machine. */
  datatype Event =
    | Starting(response: Option<Response>)
    | Syncing(response: Option<Response>)
    | Monitoring(id: int, reply: MonitorReply)
    | Closing
  {
    /** Starts fail before the inbound is created or not at all, and a reload sets up the inbound. */
    predicate Calm() {
      match this
      case Starting(response) => response.Some? ==> NoneLate(response.value.replies)
      case Syncing(response) => response.Some? ==> NoneLate(response.value.replies)
      case Monitoring(_, reply) => reply.Reloads() ==> reply.Rebuilds()
      case Closing => true
    }
  }

  lemma CalmMeans(e: Event)
    ensures e.Starting? && e.response.Some? && e.Calm() ==> NoneLate(e.response.value.replies)
    ensures e.Syncing? && e.response.Some? && e.Calm() ==> NoneLate(e.response.value.replies)
    ensures e.Monitoring? && e.Calm() ==> e.reply.Reloads() ==> e.reply.Rebuilds()
    ensures e.Monitoring? && e.reply.Rebuilds() ==> e.reply.created
  {
  }

  /** Any run of a machine on a core and a registry of its own. */
  method Run(server: S.Sing, registry: Registry, apiHost: string, name: string, nodeLimit: int, reportMinTraffic: int,
      events: seq<Event>)
    returns (m: Machine)
    requires server.Valid() && server.inbounds == map[]
    requires forall e | e in events :: e.Calm()
    modifies server, registry
    ensures m.Valid() && m.server == server && m.registry == registry
    ensures forall j, k | j in m.Tags() && k in m.Tags() && j != k :: m.Tags()[j] != m.Tags()[k]
    ensures Serves(m.Tags(), server.inbounds.Keys, registry.limiters.Keys)
    ensures forall id | id in m.Tags() ::
      m.Tags()[id] in registry.limiters && registry.limiters[m.Tags()[id]] == m.controllers[id].limiter
  {
    hide *;
    m := new Machine(server, registry, apiHost, name, nodeLimit, reportMinTraffic);
    m.HeldAre();
    m.Blank();
    ghost var mine: set<object?> := {};
    for i := 0 to |events|
      invariant fresh(m) && fresh(mine) && m.Held() <= mine && m.Limiters() <= mine && m.server == server
      invariant m.registry == registry
      invariant m.Valid() && m.Exact()
    {
      var e := events[i];
      CalmMeans(e);
      m.HeldAre();
      m.ExactMeans();
      ghost var begun: map<int, Controller> := map[];
      ghost var born: set<object?> := {};
      match e {
        case Starting(response) =>
          var ok;
          ok, begun, born := m.Start(response);
        case Syncing(response) =>
          begun, born := m.SyncTask(response);
        case Monitoring(id, reply) =>
          if id in m.controllers {
            var survives := m.Monitor(id, m.controllers[id], reply);
            assert survives;
            born := {m.controllers[id].limiter};
            m.HeldAre();
          }
        case Closing =>
          var survives;
          ghost var gone, stuck;
          survives, gone, stuck := m.Close();
          assert survives;
      }
      mine := mine + born;
    }
    m.AllTagsDiffer();
    m.HeldAre();
    m.ExactMeans();
    LeadsMeans(m.Tags(), m.InUse(), registry.limiters);
  }
}
