/** The machine of node/machine.go: it keeps one controller for every node the panel assigns to it. */
module Machine {
  import opened Formats
  import opened Controller
  import opened Limiter
  import opened Nodes
  import S = Sing

  class Machine {
    const server: S.Sing
    const registry: Registry
    const apiHost: string
    const name: string
    const nodeLimit: int
    const reportMinTraffic: int
    var controllers: map<int, Controller>

    constructor (server: S.Sing, registry: Registry, apiHost: string, name: string, nodeLimit: int,
        reportMinTraffic: int)
      requires server.Valid()
      ensures Valid() && controllers == map[]
      ensures this.server == server && this.registry == registry && this.apiHost == apiHost && this.name == name
      ensures this.nodeLimit == nodeLimit && this.reportMinTraffic == reportMinTraffic
    {
      this.server, this.registry, this.apiHost, this.name := server, registry, apiHost, name;
      this.nodeLimit, this.reportMinTraffic := nodeLimit, reportMinTraffic;
      controllers := map[];
    }

    function NameFor(id: int): string {
      if name == "" then "" else NamedTag(name, id)
    }

    /** A controller this machine made for the node, carrying the tag of that node. */
    ghost predicate Carries(id: int, c: Controller)
      reads c`tag, c`protocol
    {
      && c.server == server && c.registry == registry && c.apiHost == apiHost
      && c.nodeId == id && c.name == NameFor(id) && c.tag == c.TagFor(c.protocol)
      && c.nodeLimit == nodeLimit && c.reportMinTraffic == reportMinTraffic
    }

    /** ... and started. */
    ghost predicate Owns(id: int, c: Controller)
      reads c`tag, c`protocol, c`limiter
    {
      Carries(id, c) && c.limiter != null && c.limiter.speedLimit == c.nodeLimit
    }

    ghost function Held(): set<Controller>
      reads this
    {
      controllers.Values
    }

    ghost function Picked(ids: seq<int>): set<Controller>
      reads this
    {
      set k | 0 <= k < |ids| && ids[k] in controllers :: controllers[ids[k]]
    }

    ghost function Limiters(): set<object?>
      reads this, Held()`limiter
    {
      set id | id in controllers :: controllers[id].limiter
    }

    ghost predicate Valid()
      reads this, Held()`tag, Held()`protocol, Held()`limiter, server`counters
    {
      server.Valid() && forall id | id in controllers :: Owns(id, controllers[id])
    }

    /** The tags of the live nodes. */
    ghost function Tags(): (t: map<int, string>)
      reads this, Held()`tag
      ensures t.Keys == controllers.Keys
    {
      map id | id in controllers :: controllers[id].tag
    }

    /** The limiters of the live nodes. */
    ghost function InUse(): (m: map<int, Limiter?>)
      reads this, Held()`limiter
      ensures m.Keys == controllers.Keys
    {
      map id | id in controllers :: controllers[id].limiter
    }

    /** The inbounds are those of the live nodes, and their tags lead to their limiters. */
    ghost predicate Exact()
      reads this, Held()`tag, Held()`limiter, server, registry
    {
      Serves(Tags(), server.inbounds.Keys, registry.limiters.Keys) && Leads(Tags(), InUse(), registry.limiters)
    }

    /** The tag of such a controller, written out. */
    lemma CarriedTag(id: int, c: Controller)
      requires Carries(id, c)
      ensures c.tag ==
        if name == "" then "[" + apiHost + "]-" + c.protocol + ":" + Itoa(id) else name + "-" + Itoa(id)
    {
    }

    /** Controllers of different nodes have different tags. */
    lemma TagsDiffer(id: int, c: Controller, id': int, c': Controller)
      requires Carries(id, c) && Carries(id', c') && id != id'
      ensures c.tag != c'.tag
    {
      if c.tag == c'.tag {
        if name == "" {
          NodeTagInjective(apiHost, c.protocol, id, c'.protocol, id');
        } else {
          NamedTagInjective(name, id, id');
        }
      }
    }

    lemma AllTagsDiffer()
      requires Valid()
      ensures forall j, k | j in Tags() && k in Tags() && j != k :: Tags()[j] != Tags()[k]
    {
      forall j, k | j in Tags() && k in Tags() && j != k ensures Tags()[j] != Tags()[k] {
        TagsDiffer(j, controllers[j], k, controllers[k]);
      }
    }

    /** No live node other than `id` has the tag of a controller made for `id`. */
    lemma TagIsFree(id: int, c: Controller)
      requires Valid() && Carries(id, c)
      ensures forall k | k in Tags() && k != id :: Tags()[k] != c.tag
    {
      forall k | k in Tags() && k != id ensures Tags()[k] != c.tag {
        TagsDiffer(k, controllers[k], id, c);
      }
    }

    /** newController: the start is part of it. */
    method NewController(id: int, reply: StartReply) returns (c: Controller, ok: bool)
      modifies server`inbounds, server`uidMap, server`nodeReportMinTrafficBytes, registry
      ensures fresh(c) && c.closes == 0 && ok == reply.Succeeds()
      ensures reply.Registers() ==> Carries(id, c)
      ensures ok ==> Owns(id, c) && fresh(c.limiter)
      ensures reply.Creates() ==> server.inbounds.Keys == old(server.inbounds.Keys) + {c.tag}
      ensures !reply.Creates() ==> server.inbounds.Keys == old(server.inbounds.Keys)
      ensures reply.Registers() ==> registry.limiters.Keys == old(registry.limiters.Keys) + {c.tag}
      ensures !reply.Registers() ==> registry.limiters.Keys == old(registry.limiters.Keys)
      ensures forall t | t in old(registry.limiters) && t != c.tag ::
        t in registry.limiters && registry.limiters[t] == old(registry.limiters)[t]
      ensures !reply.Registers() ==> registry.limiters == old(registry.limiters)
      ensures ok ==> c.tag in registry.limiters && registry.limiters[c.tag] == c.limiter
    {
      hide Formats.NodeTag, Formats.NamedTag;
      c := new Controller(server, registry, apiHost, NameFor(id), id, nodeLimit, reportMinTraffic);
      ok := c.Start(reply);
      assert ok ==> c.limiter.speedLimit == c.nodeLimit;
    }

    /** ... and its entry in the table. */
    method PutIn(id: int, reply: StartReply) returns (c: Controller, ok: bool)
      requires Valid() && id !in controllers
      modifies this`controllers, server`inbounds, server`uidMap, server`nodeReportMinTrafficBytes, registry
      ensures Valid() && fresh(c) && c.closes == 0 && ok == reply.Succeeds() && (reply.Registers() ==> Carries(id, c))
      ensures controllers == if ok then old(controllers)[id := c] else old(controllers)
      ensures Tags() == if ok then old(Tags())[id := c.tag] else old(Tags())
      ensures InUse() == if ok then old(InUse())[id := c.limiter] else old(InUse())
      ensures ok ==> c.limiter != null && fresh(c.limiter)
      ensures Limiters() <= old(Limiters()) + if ok then {c.limiter} else {}
      ensures reply.Creates() ==> server.inbounds.Keys == old(server.inbounds.Keys) + {c.tag}
      ensures !reply.Creates() ==> server.inbounds.Keys == old(server.inbounds.Keys)
      ensures reply.Registers() ==> registry.limiters.Keys == old(registry.limiters.Keys) + {c.tag}
      ensures !reply.Registers() ==> registry.limiters == old(registry.limiters)
      ensures forall t | t in old(registry.limiters) && t != c.tag ::
        t in registry.limiters && registry.limiters[t] == old(registry.limiters)[t]
      ensures ok ==> c.tag in registry.limiters && registry.limiters[c.tag] == c.limiter
    {
      hide *;
      ghost var tags, objects, held := Tags(), Limiters(), InUse();
      Parts();
      c, ok := NewController(id, reply);
      if ok {
        controllers := controllers[id := c];
        OwnsMeans(id, c);
        JoinParts(old(controllers), id, c, tags, held, objects);
      } else {
        FromParts(tags, held, objects);
      }
    }

    /** One start of syncNodes. */
    method StartOne(id: int, reply: StartReply) returns (c: Controller, ok: bool)
      requires Valid() && id !in controllers
      modifies this`controllers, server`inbounds, server`uidMap, server`nodeReportMinTrafficBytes, registry
      ensures Valid() && fresh(c) && c.closes == 0 && ok == reply.Succeeds()
      ensures controllers == if ok then old(controllers)[id := c] else old(controllers)
      ensures Tags() == if ok then old(Tags())[id := c.tag] else old(Tags())
      ensures ok ==> c.tag in server.inbounds && c.limiter != null && fresh(c.limiter)
      ensures Limiters() <= old(Limiters()) + if ok then {c.limiter} else {}
      ensures Same(old(Tags()), old(server.inbounds.Keys), server.inbounds.Keys)
      ensures old(Exact()) ==> (Exact() <==> (reply.Creates() ==> reply.accepted))
    {
      hide *;
      ghost var tags, held, inbounds, registered := Tags(), InUse(), server.inbounds.Keys, registry.limiters;
      Parts();
      ExactMeans();
      ReplyMeans(reply);
      c, ok := PutIn(id, reply);
      if reply.Registers() {
        TagIsFree(id, c);
        assert forall k | k in tags :: Tags()[k] == tags[k];
        TagAdded(tags, inbounds, registered.Keys, id, c.tag);
      } else {
        SameSelf(tags, inbounds);
      }
      ExactMeans();
      if old(Exact()) {
        LeadsStill(tags, held, registered, Tags(), InUse(), registry.limiters, id);
      }
    }

    lemma OwnsMeans(id: int, c: Controller)
      ensures Owns(id, c) ==> Carries(id, c) && c.limiter != null
    {
    }

    /** What the table holds, entry by entry. */
    lemma Parts()
      requires Valid()
      ensures server.Valid() && Tags().Keys == controllers.Keys
      ensures forall k | k in controllers ::
        && Owns(k, controllers[k]) && Tags()[k] == controllers[k].tag && controllers[k].limiter in Limiters()
        && InUse()[k] == controllers[k].limiter
    {
    }

    lemma FromParts(tags: map<int, string>, held: map<int, Limiter?>, limiters: set<object?>)
      requires server.Valid() && tags.Keys == controllers.Keys == held.Keys
      requires forall k | k in controllers ::
        && Owns(k, controllers[k]) && tags[k] == controllers[k].tag && controllers[k].limiter in limiters
        && held[k] == controllers[k].limiter
      ensures Valid() && Tags() == tags && InUse() == held && Limiters() <= limiters
    {
      assert forall k | k in tags :: Tags()[k] == tags[k];
      assert forall k | k in held :: InUse()[k] == held[k];
    }

    lemma JoinParts(base: map<int, Controller>, id: int, c: Controller, tags: map<int, string>,
                    held: map<int, Limiter?>, limiters: set<object?>)
      requires server.Valid() && tags.Keys == base.Keys == held.Keys && controllers == base[id := c] && Owns(id, c)
      requires forall k | k in base ::
        && Owns(k, base[k]) && tags[k] == base[k].tag && base[k].limiter in limiters && held[k] == base[k].limiter
      ensures Valid() && Tags() == tags[id := c.tag] && InUse() == held[id := c.limiter]
      ensures Limiters() <= limiters + {c.limiter}
    {
      FromParts(tags[id := c.tag], held[id := c.limiter], limiters + {c.limiter});
    }

    /** Close a controller and, unless that fails, forget it. */
    method TakeOut(id: int, c: Controller) returns (ok: bool)
      requires Valid() && id in controllers && controllers[id] == c
      modifies this`controllers, server`inbounds, registry, c`closes
      ensures Valid()
      ensures (ok <==> old(Tags()[id] in server.inbounds)) && c.closes == old(c.closes) + 1
      ensures controllers == if ok then old(controllers) - {id} else old(controllers)
      ensures Tags() == if ok then old(Tags()) - {id} else old(Tags())
      ensures InUse() == if ok then old(InUse()) - {id} else old(InUse())
      ensures Limiters() <= old(Limiters())
      ensures server.inbounds.Keys == old(server.inbounds.Keys) - {old(Tags()[id])}
      ensures registry.limiters == old(registry.limiters) - {old(Tags()[id])}
    {
      hide *;
      ghost var tags, objects, held := Tags(), Limiters(), InUse();
      Parts();
      OwnsMeans(id, c);
      ok := c.Close();
      assert server.inbounds.Keys == old(server.inbounds.Keys) - {c.tag};
      if ok {
        controllers := controllers - {id};
      }
      FromParts(if ok then tags - {id} else tags, if ok then held - {id} else held, objects);
    }

    /** ... and what becomes of the others. */
    method CloseOne(id: int, c: Controller) returns (ok: bool)
      requires Valid() && id in controllers && controllers[id] == c
      modifies this`controllers, server`inbounds, registry, c`closes
      ensures Valid()
      ensures (ok <==> old(Tags()[id] in server.inbounds)) && c.closes == old(c.closes) + 1
      ensures controllers == if ok then old(controllers) - {id} else old(controllers)
      ensures Tags() == if ok then old(Tags()) - {id} else old(Tags())
      ensures Limiters() <= old(Limiters())
      ensures Same(old(Tags()) - {id}, old(server.inbounds.Keys), server.inbounds.Keys)
      ensures old(Exact()) ==> ok && Exact()
    {
      hide *;
      ghost var tags, held, inbounds, registered := Tags(), InUse(), server.inbounds.Keys, registry.limiters;
      AllTagsDiffer();
      ExactMeans();
      TagRemoved(tags, inbounds, registered.Keys, id);
      ok := TakeOut(id, c);
      ExactMeans();
      if old(Exact()) {
        LeadsStill(tags, held, registered, Tags(), InUse(), registry.limiters, id);
      }
    }

    /** The same, with an account of how often the controllers `all` have been closed. */
    method CloseCounted(id: int, c: Controller, ghost all: map<int, Controller>, ghost closes: map<int, nat>,
                        ghost which: set<int>)
      returns (ok: bool)
      requires Valid() && id in controllers && controllers[id] == c && id in all && all[id] == c && id !in which
      requires NotShared(all) && ClosedSince(all, closes, which)
      modifies this`controllers, server`inbounds, registry, c`closes
      ensures Valid() && ClosedSince(all, closes, which + {id})
      ensures ok <==> old(Tags()[id] in server.inbounds)
      ensures controllers == if ok then old(controllers) - {id} else old(controllers)
      ensures Tags() == if ok then old(Tags()) - {id} else old(Tags())
      ensures Limiters() <= old(Limiters())
      ensures Same(old(Tags()) - {id}, old(server.inbounds.Keys), server.inbounds.Keys)
      ensures old(Exact()) ==> ok && Exact()
    {
      hide *;
      CountsNow(all, closes, which, id);
      ghost var mid := Closes(all);
      ok := CloseOne(id, c);
      ClosedOneMore(all, closes, mid, which, id);
    }

    ghost function Now(): Entry
      reads this, Held()`tag, Held()`limiter, Held()`closes, server, registry
    {
      Entry(controllers, Tags(), server.inbounds.Keys, Limiters(), Closes(controllers), Exact())
    }

    /** Since the entry, the controllers of `gone` have been closed and forgotten, and no others. */
    ghost predicate Dropped(entry: Entry, gone: set<int>)
      reads this, Held()`tag, Held()`protocol, Held()`limiter, server, registry, entry.controllers.Values`closes
    {
      && Valid() && NotShared(entry.controllers) && entry.tags.Keys == entry.closes.Keys == entry.controllers.Keys
      && controllers == entry.controllers - gone && Tags() == entry.tags - gone && Limiters() <= entry.limiters
      && gone <= entry.tags.Keys && (forall k | k in gone :: entry.tags[k] in entry.inbounds)
      && (forall k | k in entry.closes :: entry.controllers[k].closes == entry.closes[k] + if k in gone then 1 else 0)
      && Same(Tags(), entry.inbounds, server.inbounds.Keys)
      && (entry.exact ==> Exact())
    }

    lemma DroppedHas(entry: Entry, gone: set<int>, id: int)
      requires Dropped(entry, gone) && id in entry.controllers && id !in gone
      ensures id in controllers && controllers[id] == entry.controllers[id]
    {
    }

    lemma DroppedMeans(entry: Entry, gone: set<int>)
      requires Dropped(entry, gone)
      ensures Valid() && controllers == entry.controllers - gone && Tags() == entry.tags - gone
      ensures entry.tags.Keys == entry.closes.Keys == entry.controllers.Keys
      ensures Limiters() <= entry.limiters && Same(Tags(), entry.inbounds, server.inbounds.Keys)
      ensures forall k | k in gone :: k in entry.tags && entry.tags[k] in entry.inbounds
      ensures forall k | k in entry.closes ::
        entry.controllers[k].closes == entry.closes[k] + if k in gone then 1 else 0
      ensures entry.exact ==> Exact()
    {
    }

    lemma PickedAre(ids: seq<int>)
      ensures forall k | 0 <= k < |ids| && ids[k] in controllers :: controllers[ids[k]] in Picked(ids)
    {
    }

    lemma DroppedNone()
      requires Valid()
      ensures Dropped(Now(), {})
      ensures Now() == Entry(controllers, Tags(), server.inbounds.Keys, Limiters(), Closes(controllers), Exact())
    {
    }

    /** The same, but that the controller of `stuck` has been closed as well and could not be forgotten. */
    ghost predicate Halted(entry: Entry, gone: set<int>, stuck: int)
      reads this, Held()`tag, Held()`protocol, Held()`limiter, server`counters, entry.controllers.Values`closes
    {
      && Valid() && !entry.exact && entry.tags.Keys == entry.closes.Keys == entry.controllers.Keys
      && controllers == entry.controllers - gone && Limiters() <= entry.limiters
      && gone <= entry.tags.Keys && (forall k | k in gone :: entry.tags[k] in entry.inbounds)
      && stuck in entry.tags && stuck !in gone && entry.tags[stuck] !in entry.inbounds
      && forall k | k in entry.closes ::
           entry.controllers[k].closes == entry.closes[k] + if k in gone || k == stuck then 1 else 0
    }

    lemma BeforeDrop(entry: Entry, gone: set<int>, id: int, c: Controller)
      requires Dropped(entry, gone) && id in controllers && controllers[id] == c
      ensures id in entry.tags && id !in gone && Valid() && id in Tags() && gone <= entry.tags.Keys
      ensures Tags()[id] in server.inbounds <==> entry.tags[id] in entry.inbounds
      ensures controllers == entry.controllers - gone && Tags() == entry.tags - gone && Limiters() <= entry.limiters
      ensures entry.tags.Keys == entry.controllers.Keys && NotShared(entry.controllers)
      ensures (forall k | k in gone :: entry.tags[k] in entry.inbounds) && (entry.exact ==> Exact())
      ensures Same(Tags(), entry.inbounds, server.inbounds.Keys)
      ensures ClosedSince(entry.controllers, entry.closes, gone)
      ensures entry.controllers[id] == c
    {
      hide Valid, Exact, Tags, Same, Limiters;
      SameOn(Tags(), entry.inbounds, server.inbounds.Keys);
    }

    lemma AfterDrop(entry: Entry, gone: set<int>, id: int)
      requires Valid() && entry.tags.Keys == entry.controllers.Keys && NotShared(entry.controllers)
      requires id in entry.tags && id !in gone && gone <= entry.tags.Keys && Limiters() <= entry.limiters
      requires forall k | k in gone :: entry.tags[k] in entry.inbounds
      requires ClosedSince(entry.controllers, entry.closes, gone + {id})
      ensures entry.tags[id] !in entry.inbounds && !entry.exact && controllers == entry.controllers - gone ==>
        Halted(entry, gone, id)
      ensures Same(Tags(), entry.inbounds, server.inbounds.Keys) && entry.tags[id] in entry.inbounds ==>
        controllers == entry.controllers - gone - {id} && Tags() == entry.tags - gone - {id} ==>
        (entry.exact ==> Exact()) ==> Dropped(entry, gone + {id})
    {
      hide Valid, Exact, Tags, Same, Limiters;
      assert entry.controllers - gone - {id} == entry.controllers - (gone + {id});
      assert entry.tags - gone - {id} == entry.tags - (gone + {id});
    }

    /** One turn of such a loop. */
    method DropOne(id: int, c: Controller, ghost entry: Entry, ghost gone: set<int>) returns (ok: bool)
      requires Dropped(entry, gone) && id in controllers && controllers[id] == c
      modifies this`controllers, server`inbounds, registry, c`closes
      ensures id in entry.tags && (ok <==> entry.tags[id] in entry.inbounds)
      ensures ok ==> Dropped(entry, gone + {id})
      ensures !ok ==> Halted(entry, gone, id)
    {
      hide *;
      BeforeDrop(entry, gone, id, c);
      ghost var tags, inbounds := Tags(), server.inbounds.Keys;
      ok := CloseCounted(id, c, entry.controllers, entry.closes, gone);
      if ok {
        SameStep(tags, entry.inbounds, inbounds, Tags(), server.inbounds.Keys, Tags());
      }
      AfterDrop(entry, gone, id);
    }

    /** Close the controllers of these nodes; the source panics when one cannot be closed. */
    method CloseAll(started: seq<int>)
      requires Valid() && Distinct(started)
      requires forall k | 0 <= k < |started| :: started[k] in Tags() && Tags()[started[k]] in server.inbounds
      modifies this`controllers, server`inbounds, registry, Picked(started)`closes
      ensures Dropped(old(Now()), IdsOf(started))
    {
      hide *;
      DroppedNone();
      WholeIds(started);
      ghost var entry, picked := Now(), Picked(started);
      PickedAre(started);
      for j := 0 to |started|
        invariant Dropped(entry, IdsOf(started[..j]))
      {
        NotAgain(started, j);
        DroppedHas(entry, IdsOf(started[..j]), started[j]);
        var ok := DropOne(started[j], controllers[started[j]], entry, IdsOf(started[..j]));
        assert ok;
      }
    }

    lemma PickedWithin(ids: seq<int>, base: map<int, Controller>, begun: map<int, Controller>)
      requires Joins(controllers, base, begun) && IdsOf(ids) == begun.Keys
      ensures Picked(ids) <= begun.Values
    {
      forall k | 0 <= k < |ids| && ids[k] in controllers ensures controllers[ids[k]] in begun.Values {
        assert ids[k] in IdsOf(ids);
        assert begun[ids[k]] == controllers[ids[k]];
      }
    }

    /** The first loop of syncNodes after n turns.  It has started the nodes of `started`, whose controllers are
        `begun`; with their limiters they are among `born`.  `fails` tells whether a start has failed. */
    ghost predicate Midway(entry: Entry, nodes: seq<int>, replies: seq<StartReply>, n: nat, started: seq<int>,
                           begun: map<int, Controller>, fails: bool, born: set<object?>)
      reads this, Held()`tag, Held()`protocol, Held()`limiter, server, registry, begun.Values`closes
    {
      && Valid() && Closed(begun, 0)
      && Progress(nodes, replies, n, controllers, entry.controllers, begun, fails)
      && Grown(entry.tags, entry.inbounds, Tags(), server.inbounds.Keys, started)
      && entry.tags.Keys == entry.controllers.Keys
      && Adds(entry.limiters, {}, Limiters(), begun.Values, born)
      && (entry.exact && NoneLate(replies) ==> Exact())
    }

    lemma MidwayStart(nodes: seq<int>, replies: seq<StartReply>)
      requires Valid() && |nodes| == |replies|
      ensures Midway(Now(), nodes, replies, 0, [], map[], false, {})
      ensures Now() == Entry(controllers, Tags(), server.inbounds.Keys, Limiters(), Closes(controllers), Exact())
    {
      ProgressStart(nodes, replies, controllers);
      GrownStart(Tags(), server.inbounds.Keys);
      hide Valid, Progress, Grown, Exact;
    }

    lemma MidwaySkip(entry: Entry, nodes: seq<int>, replies: seq<StartReply>, i: nat, started: seq<int>,
                     begun: map<int, Controller>, fails: bool, born: set<object?>)
      requires Midway(entry, nodes, replies, i, started, begun, fails, born) && i < |nodes| && nodes[i] in controllers
      ensures Midway(entry, nodes, replies, i + 1, started, begun, fails, born)
    {
      ProgressTurn(nodes, replies, i, controllers, entry.controllers, begun, fails, controllers[nodes[i]]);
      hide Valid, Progress, Grown, Exact, Adds;
    }

    lemma MidwayMeans(entry: Entry, nodes: seq<int>, replies: seq<StartReply>, n: nat, started: seq<int>,
                     begun: map<int, Controller>, fails: bool, born: set<object?>)
      requires Midway(entry, nodes, replies, n, started, begun, fails, born)
      ensures begun.Values <= born && begun.Keys == Startable(nodes, replies, entry.controllers.Keys, n)
      ensures !fails && n < |nodes| && nodes[n] !in controllers && !replies[n].Succeeds() ==>
        StoppedAfter(nodes, replies, entry.controllers.Keys, Startable(nodes, replies, entry.controllers.Keys, n + 1))
    {
      hide Valid, Grown, Exact, Joins, Closed, Startable, FailsFirst, SomeFails;
      if !fails && n < |nodes| && nodes[n] !in controllers {
        ProgressStops(nodes, replies, n, controllers, entry.controllers, begun);
      }
    }

    lemma MidwayEnd(entry: Entry, nodes: seq<int>, replies: seq<StartReply>, started: seq<int>,
                    begun: map<int, Controller>, fails: bool, born: set<object?>)
      requires Midway(entry, nodes, replies, |nodes|, started, begun, fails, born)
      ensures Valid() && Closed(begun, 0) && begun.Keys !! entry.controllers.Keys
      ensures controllers == entry.controllers + begun
      ensures begun.Keys == Startable(nodes, replies, entry.controllers.Keys, |nodes|)
      ensures fails == SomeFails(nodes, replies, entry.controllers.Keys, |nodes|)
      ensures begun.Values <= born && Limiters() <= entry.limiters + born
      ensures forall k | k in entry.tags :: k in Tags() && Tags()[k] == entry.tags[k]
      ensures Same(entry.tags, entry.inbounds, server.inbounds.Keys)
      ensures entry.exact && NoneLate(replies) ==> Exact()
    {
      GrownMeans(entry.tags, entry.inbounds, Tags(), server.inbounds.Keys, started);
      ProgressMeans(nodes, replies, |nodes|, controllers, entry.controllers, begun, fails);
      JoinsMeans(controllers, entry.controllers, begun);
      AddsMeans(entry.limiters, {}, Limiters(), begun.Values, born);
      hide Valid, Progress, Grown, Exact, Adds, Joins, Startable, SomeFails, Same;
    }

    /** One turn of the first loop of syncNodes, for a node that is not live. */
    method StartNext(nodes: seq<int>, replies: seq<StartReply>, i: nat, started: seq<int>, ghost entry: Entry,
                     ghost begun: map<int, Controller>, ghost fails: bool, ghost born: set<object?>)
      returns (ok: bool, next: seq<int>, ghost more: map<int, Controller>, ghost failing: bool,
               ghost added: set<object?>)
      requires i < |nodes| == |replies| && nodes[i] !in controllers
      requires Midway(entry, nodes, replies, i, started, begun, fails, born)
      modifies this`controllers, server`inbounds, server`uidMap, server`nodeReportMinTrafficBytes, registry
      ensures Midway(entry, nodes, replies, i + 1, next, more, failing, born + added) && fresh(added)
      ensures failing == (fails || !ok) && ok == replies[i].Succeeds()
    {
      hide Valid, Tags, Grown, Exact, Adds, Joins, Closed;
      hide Progress, NoneLate, Limiters, Owns, Same, Startable, SomeFails;
      ghost var all, limiters := controllers, Limiters();
      more, next, added := begun, started, {};
      NotLate(replies, i);
      var c;
      c, ok := StartOne(nodes[i], replies[i]);
      failing := fails || !ok;
      GrownStep(entry.tags, entry.inbounds, old(Tags()), old(server.inbounds.Keys), started, server.inbounds.Keys,
                nodes[i], c.tag);
      ProgressTurn(nodes, replies, i, all, entry.controllers, begun, fails, c);
      if ok {
        ClosedMore(begun, 0, nodes[i], c);
        more, next, added := begun[nodes[i] := c], started + [nodes[i]], {c, c.limiter};
      }
      AddsMeans(limiters, begun.Values, Limiters(), more.Values, added);
      AddsStep(entry.limiters, {}, limiters, begun.Values, born, Limiters(), more.Values, added);
    }

    /** A strict synchronisation that cannot go on leaves the table as it was. */
    method Rollback(nodes: seq<int>, replies: seq<StartReply>, n: nat, started: seq<int>, ghost entry: Entry,
                    ghost begun: map<int, Controller>, ghost born: set<object?>)
      requires Midway(entry, nodes, replies, n, started, begun, true, born)
      modifies this`controllers, server`inbounds, registry, begun.Values`closes
      ensures Valid() && Tags() == entry.tags && controllers == entry.controllers && Closed(begun, 1)
      ensures begun.Keys !! entry.controllers.Keys && SomeFails(nodes, replies, entry.controllers.Keys, |nodes|)
      ensures begun.Values <= born && Limiters() <= entry.limiters + born
      ensures Same(entry.tags, entry.inbounds, server.inbounds.Keys)
      ensures entry.exact && NoneLate(replies) ==> Exact()
    {
      hide *;
      ghost var mid := Now();
      RollbackStart(nodes, replies, n, started, entry, begun, born);
      CloseAll(started);
      RollbackEnd(mid, IdsOf(started), entry, begun, born, NoneLate(replies));
    }

    lemma RollbackStart(nodes: seq<int>, replies: seq<StartReply>, n: nat, started: seq<int>, entry: Entry,
                        begun: map<int, Controller>, born: set<object?>)
      requires Midway(entry, nodes, replies, n, started, begun, true, born)
      ensures Valid() && Distinct(started) && Picked(started) <= begun.Values
      ensures forall k | 0 <= k < |started| :: started[k] in Tags() && Tags()[started[k]] in server.inbounds
      ensures Undoes(Now(), IdsOf(started), entry, begun, born, NoneLate(replies))
      ensures SomeFails(nodes, replies, entry.controllers.Keys, |nodes|)
    {
      hide Valid, Tags, Grown, Exact, Adds, Joins, Closed;
      hide Progress, NoneLate, Limiters, Same, Startable, SomeFails, IdsOf, Picked;
      ProgressMeans(nodes, replies, n, controllers, entry.controllers, begun, true);
      JoinsMeans(controllers, entry.controllers, begun);
      ClosedMeans(begun, 0);
      GrownMeans(entry.tags, entry.inbounds, Tags(), server.inbounds.Keys, started);
      AddsMeans(entry.limiters, {}, Limiters(), begun.Values, born);
      PickedWithin(started, entry.controllers, begun);
    }

    lemma RollbackEnd(mid: Entry, gone: set<int>, entry: Entry, begun: map<int, Controller>, born: set<object?>,
        exact: bool)
      requires Undoes(mid, gone, entry, begun, born, exact) && Dropped(mid, gone)
      ensures Valid() && Tags() == entry.tags && controllers == entry.controllers && Closed(begun, 1)
      ensures begun.Keys !! entry.controllers.Keys && begun.Values <= born && Limiters() <= entry.limiters + born
      ensures Same(entry.tags, entry.inbounds, server.inbounds.Keys)
      ensures entry.exact && exact ==> Exact()
    {
      hide Valid, Dropped, Exact, Tags, Limiters, Same, Closed;
      DroppedMeans(mid, gone);
      SameStep(entry.tags, entry.inbounds, mid.inbounds, entry.tags, server.inbounds.Keys, entry.tags);
      ClosedMeans(begun, 1);
    }

    /** A turn of the second loop of syncNodes. */
    method DropTurn(id: int, keep: set<int>, ghost entry: Entry, ghost todo: set<int>, ghost gone: set<int>)
      returns (ok: bool, ghost now: set<int>)
      requires Dropped(entry, gone) && Cleared(entry.controllers.Keys, todo, keep, gone) && id in todo
      modifies this`controllers, server`inbounds, registry, Held()`closes
      ensures ok ==> Dropped(entry, now) && Cleared(entry.controllers.Keys, todo - {id}, keep, now)
      ensures !ok ==> Halted(entry, now, id) && id !in keep && now !! keep
    {
      hide *;
      Visited(entry.controllers.Keys, todo, keep, gone, id);
      DroppedHas(entry, gone, id);
      HeldAre();
      ok, now := true, gone;
      if id !in keep {
        ok := DropOne(id, controllers[id], entry, gone);
        if ok {
          now := gone + {id};
        }
      }
    }

    /** The second loop of syncNodes, and that of Close; the order is that of a map iteration.  The nodes of
        `gone` are closed and forgotten; the one of `stuck` is closed, and ends the loop. */
    method DropExcept(keep: set<int>) returns (ok: bool, ghost gone: set<int>, ghost stuck: set<int>)
      requires Valid()
      modifies this`controllers, server`inbounds, registry, Held()`closes
      ensures Valid() && Limiters() <= old(Limiters()) && Held() <= old(Held())
      ensures ok <==> forall k | k in old(Tags()) && k !in keep :: old(Tags())[k] in old(server.inbounds.Keys)
      ensures controllers == old(controllers) - gone
      ensures Drops(old(Tags()), old(server.inbounds.Keys), keep, ok, gone, stuck)
      ensures ClosedSince(old(controllers), old(Closes(controllers)), gone + stuck)
      ensures old(Exact()) ==> ok && Exact()
    {
      hide *;
      DroppedNone();
      ghost var entry := Now();
      gone, stuck := {}, {};
      ClosesAre(controllers);
      HeldAre();
      var todo := controllers.Keys;
      ClearedNone(entry.controllers.Keys, keep);
      while exists id :: id in todo
        invariant Dropped(entry, gone) && Cleared(entry.controllers.Keys, todo, keep, gone)
        decreases |todo|
      {
        var id :| id in todo;
        DroppedHeld(entry, gone);
        ok, gone := DropTurn(id, keep, entry, todo, gone);
        if !ok {
          HaltedMeans(entry, gone, id, keep);
          stuck := {id};
          return;
        }
        todo := todo - {id};
      }
      ClearedAll(entry.controllers.Keys, todo, keep, gone);
      DropEnds(entry, keep);
      assert gone + {} == gone;
      ok := true;
    }

    lemma DropEnds(entry: Entry, keep: set<int>)
      requires Dropped(entry, entry.controllers.Keys - keep)
      ensures var gone := entry.controllers.Keys - keep;
              && Valid() && controllers == entry.controllers - gone && Held() <= entry.controllers.Values
              && Limiters() <= entry.limiters && Drops(entry.tags, entry.inbounds, keep, true, gone, {})
              && ClosedSince(entry.controllers, entry.closes, gone) && (entry.exact ==> Exact())
      ensures forall k | k in entry.tags && k !in keep :: entry.tags[k] in entry.inbounds
    {
      hide Valid, Exact, Tags, Same, Limiters;
      DroppedHeld(entry, entry.controllers.Keys - keep);
    }

    lemma DroppedHeld(entry: Entry, gone: set<int>)
      requires Dropped(entry, gone)
      ensures Held() <= entry.controllers.Values
    {
      hide Valid, Exact, Tags, Same, Limiters;
      FewerHeld(entry.controllers, gone);
    }

    lemma HaltedMeans(entry: Entry, gone: set<int>, stuck: int, keep: set<int>)
      requires Halted(entry, gone, stuck) && stuck !in keep && gone !! keep
      ensures Valid() && !entry.exact && controllers == entry.controllers - gone
      ensures Held() <= entry.controllers.Values && Limiters() <= entry.limiters
      ensures Drops(entry.tags, entry.inbounds, keep, false, gone, {stuck})
      ensures ClosedSince(entry.controllers, entry.closes, gone + {stuck})
      ensures stuck in entry.tags && stuck !in keep && entry.tags[stuck] !in entry.inbounds
    {
      hide Valid, Limiters;
      FewerHeld(entry.controllers, gone);
    }

    lemma HeldAre()
      ensures Held() == controllers.Values && Tags().Keys == controllers.Keys
      ensures forall k | k in controllers :: controllers[k] in Held() && controllers[k].limiter in Limiters()
    {
    }

    /** The first loop of syncNodes.  `begun` are the controllers it starts. */
    method StartWanted(nodes: seq<int>, replies: seq<StartReply>, strict: bool)
      returns (failed: bool, ghost begun: map<int, Controller>, ghost born: set<object?>)
      requires Valid() && |nodes| == |replies|
      modifies this`controllers, server`inbounds, server`uidMap, server`nodeReportMinTrafficBytes, registry
      ensures Valid() && begun.Keys !! old(controllers).Keys
      ensures failed <==> strict && SomeFails(nodes, replies, old(controllers).Keys, |nodes|)
      ensures controllers == if failed then old(controllers) else old(controllers) + begun
      ensures !failed ==> begun.Keys == Startable(nodes, replies, old(controllers).Keys, |nodes|)
      ensures fresh(born) && begun.Values <= born && Limiters() <= old(Limiters()) + born
      ensures failed ==> StoppedAfter(nodes, replies, old(controllers).Keys, begun.Keys)
      ensures Closed(begun, if failed then 1 else 0)
      ensures forall k | k in old(Tags()) :: k in Tags() && Tags()[k] == old(Tags())[k]
      ensures Same(old(Tags()), old(server.inbounds.Keys), server.inbounds.Keys)
      ensures old(Exact()) && NoneLate(replies) ==> Exact()
    {
      hide *;
      MidwayStart(nodes, replies);
      begun, failed := map[], false;
      var started := [];
      ghost var entry, fails := Now(), false;
      born := {};
      for i := 0 to |nodes|
        invariant Midway(entry, nodes, replies, i, started, begun, fails, born) && fresh(born) && !(strict && fails)
      {
        if nodes[i] in controllers {
          MidwaySkip(entry, nodes, replies, i, started, begun, fails, born);
          continue;
        }
        MidwayMeans(entry, nodes, replies, i, started, begun, fails, born);
        var ok;
        ghost var added;
        ok, started, begun, fails, added := StartNext(nodes, replies, i, started, entry, begun, fails, born);
        born := born + added;
        if !ok && strict {
          MidwayMeans(entry, nodes, replies, i + 1, started, begun, fails, born);
          Rollback(nodes, replies, i + 1, started, entry, begun, born);
          failed := true;
          return;
        }
      }
      MidwayEnd(entry, nodes, replies, started, begun, fails, born);
    }

    lemma EntryIsNow()
      ensures Now() == Entry(controllers, Tags(), server.inbounds.Keys, Limiters(), Closes(controllers), Exact())
      ensures Tags().Keys == controllers.Keys == Closes(controllers).Keys && Held() == controllers.Values
      ensures forall k | k in controllers :: Closes(controllers)[k] == controllers[k].closes
    {
    }

    lemma StillOpen(entry: Entry)
      requires entry.closes.Keys == entry.controllers.Keys
      requires forall k | k in entry.controllers :: entry.controllers[k].closes == entry.closes[k]
      ensures ClosedSince(entry.controllers, entry.closes, {})
    {
    }

    lemma HeldJoin(base: map<int, Controller>, begun: map<int, Controller>)
      requires controllers == base + begun
      ensures Held() <= base.Values + begun.Values
    {
    }

    /** The second loop of syncNodes, after the first has started `begun`. */
    method DropUnwanted(nodes: seq<int>, replies: seq<StartReply>, ghost entry: Entry,
                        ghost begun: map<int, Controller>)
      returns (ok: bool, ghost gone: set<int>, ghost stuck: set<int>)
      requires Valid() && |nodes| == |replies|
      requires begun.Keys !! entry.controllers.Keys && entry.controllers.Keys == entry.tags.Keys
      requires controllers == entry.controllers + begun && Closed(begun, 0)
      requires begun.Keys == Startable(nodes, replies, entry.controllers.Keys, |nodes|)
      requires ClosedSince(entry.controllers, entry.closes, {})
      requires forall k | k in entry.tags :: k in Tags() && Tags()[k] == entry.tags[k]
      requires Same(entry.tags, entry.inbounds, server.inbounds.Keys)
      modifies this`controllers, server`inbounds, registry, Held()`closes
      ensures Valid() && Limiters() <= old(Limiters()) && Held() <= entry.controllers.Values + begun.Values
      ensures ok <==> !exists k | k in entry.tags && k !in nodes :: entry.tags[k] !in entry.inbounds
      ensures controllers == (entry.controllers - gone) + begun && Closed(begun, 0)
      ensures Drops(entry.tags, entry.inbounds, IdsOf(nodes), ok, gone, stuck)
      ensures ClosedSince(entry.controllers, entry.closes, gone + stuck)
      ensures ok ==> gone == entry.controllers.Keys - IdsOf(nodes)
      ensures old(Exact()) ==> Exact()
    {
      hide *;
      var next := IdsOf(nodes);
      SyncDrops(nodes, replies, entry.controllers, begun);
      EntryIsNow();
      ghost var tags, inbounds, closes := Tags(), server.inbounds.Keys, Closes(controllers);
      StillClosed(entry.controllers, begun, entry.closes, closes);
      ok, gone, stuck := DropExcept(next);
      DropsLift(entry.tags, entry.inbounds, tags, inbounds, entry.controllers.Keys, begun.Keys, next, ok, gone, stuck);
      SyncJoins(entry.controllers, begun, gone, stuck, next);
      ClosesLift(entry.controllers, begun, entry.closes, closes, gone + stuck);
      SyncTags(entry.tags, entry.inbounds, tags, inbounds, nodes);
    }

    /** syncNodes.  `begun` are the controllers it starts. */
    method SyncNodes(nodes: seq<int>, replies: seq<StartReply>, strict: bool)
      returns (result: SyncResult, ghost begun: map<int, Controller>, ghost born: set<object?>,
               ghost gone: set<int>, ghost stuck: set<int>)
      requires Valid() && |nodes| == |replies|
      modifies this`controllers, server`inbounds, server`uidMap
      modifies server`nodeReportMinTrafficBytes, registry, Held()`closes
      ensures Valid() && fresh(born) && begun.Values <= born
      ensures Held() <= old(Held()) + begun.Values && Limiters() <= old(Limiters()) + born
      ensures result.StartFailed? <==> strict && SomeFails(nodes, replies, old(controllers).Keys, |nodes|)
      ensures result.StartFailed? ==> controllers == old(controllers) && Closed(begun, 1)
      ensures result.StartFailed? ==> StoppedAfter(nodes, replies, old(controllers).Keys, begun.Keys)
      ensures result.StartFailed? ==> forall k | k in controllers :: controllers[k].closes == old(controllers[k].closes)
      ensures !result.StartFailed? ==> (result.CloseFailed? <==>
        exists k | k in old(Tags()) && k !in nodes :: old(Tags())[k] !in old(server.inbounds.Keys))
      ensures !result.StartFailed? ==>
        begun.Keys == Startable(nodes, replies, old(controllers).Keys, |nodes|) && Closed(begun, 0)
      ensures !result.StartFailed? ==> controllers == (old(controllers) - gone) + begun
      ensures !result.StartFailed? ==>
        Drops(old(Tags()), old(server.inbounds.Keys), IdsOf(nodes), result.Synced?, gone, stuck)
      ensures !result.StartFailed? ==> ClosedSince(old(controllers), old(Closes(controllers)), gone + stuck)
      ensures result.Synced? ==> gone == old(controllers).Keys - IdsOf(nodes)
      ensures old(Exact()) ==> !result.CloseFailed?
      ensures old(Exact()) && NoneLate(replies) ==> Exact()
    {
      hide *;
      EntryIsNow();
      ExactMeans();
      ghost var entry := Now();
      var failed;
      failed, begun, born := StartWanted(nodes, replies, strict);
      gone, stuck := {}, {};
      if failed {
        result := StartFailed;
        return;
      }
      StillOpen(entry);
      HeldJoin(entry.controllers, begun);
      var ok;
      ok, gone, stuck := DropUnwanted(nodes, replies, entry, begun);
      result := if ok then Synced else CloseFailed;
    }

    /** Start.  The response is None when the node list cannot be fetched. */
    method Start(response: Option<Response>)
      returns (ok: bool, ghost begun: map<int, Controller>, ghost born: set<object?>)
      requires Valid()
      modifies this`controllers, server`inbounds, server`uidMap
      modifies server`nodeReportMinTrafficBytes, registry, Held()`closes
      ensures Valid() && fresh(born) && begun.Values <= born
      ensures Held() <= old(Held()) + begun.Values && Limiters() <= old(Limiters()) + born
      ensures ok ==> response.Some? && controllers.Keys == IdsOf(response.value.nodes)
      ensures response.None? ==> !ok && controllers == old(controllers) && Closed(begun, 1)
      ensures response.Some? && CannotStart(response.value, old(controllers).Keys) ==>
        !ok && controllers == old(controllers) && Closed(begun, 1)
      ensures old(Exact()) && response.Some? ==>
        ok || CannotStart(response.value, old(controllers).Keys)
      ensures old(Exact()) && (response.None? || NoneLate(response.value.replies)) ==> Exact()
    {
      hide *;
      ClosedMeans(map[], 1);
      if response.None? {
        return false, map[], {};
      }
      var result;
      ghost var base := controllers;
      ghost var gone, stuck;
      result, begun, born, gone, stuck := SyncNodes(response.value.nodes, response.value.replies, true);
      ResponseMeans(response.value, base.Keys);
      AllStarted(response.value.nodes, response.value.replies, base, begun);
      ok := result.Synced?;
    }

    /** syncTask, which reports no error to its caller. */
    method SyncTask(response: Option<Response>) returns (ghost begun: map<int, Controller>, ghost born: set<object?>)
      requires Valid()
      modifies this`controllers, server`inbounds, server`uidMap
      modifies server`nodeReportMinTrafficBytes, registry, Held()`closes
      ensures Valid() && fresh(born) && begun.Values <= born
      ensures Held() <= old(Held()) + begun.Values && Limiters() <= old(Limiters()) + born
      ensures response.None? ==> controllers == old(controllers) && begun == map[]
      ensures old(Exact()) && response.Some? ==>
        controllers == (old(controllers) - (old(controllers).Keys - IdsOf(response.value.nodes))) + begun
      ensures old(Exact()) && response.Some? ==>
        begun.Keys == CanStart(response.value, old(controllers).Keys)
      ensures old(Exact()) && (response.None? || NoneLate(response.value.replies)) ==> Exact()
    {
      hide *;
      if response.None? {
        return map[], {};
      }
      var result;
      ResponseMeans(response.value, controllers.Keys);
      ghost var gone, stuck;
      result, begun, born, gone, stuck := SyncNodes(response.value.nodes, response.value.replies, false);
    }

    /** Close.  The result is false where the source panics, with the nodes of `gone` closed and forgotten and that
        of `stuck` closed. */
    method Close() returns (survives: bool, ghost gone: set<int>, ghost stuck: set<int>)
      requires Valid()
      modifies this`controllers, server`inbounds, registry, Held()`closes
      ensures Valid() && Held() <= old(Held()) && Limiters() <= old(Limiters())
      ensures survives <==> forall k | k in old(Tags()) :: old(Tags())[k] in old(server.inbounds.Keys)
      ensures controllers == old(controllers) - gone && (survives ==> controllers == map[])
      ensures Drops(old(Tags()), old(server.inbounds.Keys), {}, survives, gone, stuck)
      ensures ClosedSince(old(controllers), old(Closes(controllers)), gone + stuck)
      ensures survives ==>
        forall k | k in old(controllers) :: old(controllers)[k].closes == old(controllers[k].closes) + 1
      ensures old(Exact()) ==> survives && Exact() && server.inbounds == map[]
    {
      hide Valid, Limiters, Held;
      survives, gone, stuck := DropExcept({});
    }

    /** A turn of the node monitor of a live node.  The result is false where the source panics. */
    method Turn(id: int, c: Controller, reply: MonitorReply) returns (survives: bool)
      requires Valid() && id in controllers && controllers[id] == c
      modifies c`tag, c`protocol, c`userList, c`limiter, c.limiter
      modifies server`inbounds, server`uidMap, server`counters, server`nodeReportMinTrafficBytes, registry
      ensures survives || old(Tags()[id] in server.inbounds) ==> Valid() && Carries(id, c)
      ensures Tags() == old(Tags())[id := c.tag] && InUse() == old(InUse())[id := c.limiter]
      ensures Limiters() <= old(Limiters()) + {c.limiter} && (c.limiter == old(c.limiter) || fresh(c.limiter))
      ensures survives <==>
        (reply.Reloads() ==> old(Tags()[id] in server.inbounds) && (reply.rules && reply.cert ==> reply.created))
      ensures !reply.Reloads() ==> c.tag == old(Tags())[id] && server.inbounds.Keys == old(server.inbounds.Keys)
      ensures reply.Reloads() && old(Tags()[id] in server.inbounds) ==> var kept := old(server.inbounds.Keys);
        server.inbounds.Keys == kept - {old(Tags())[id]} + if reply.Rebuilds() then {c.tag} else {}
      ensures old(Exact()) ==>
        && (forall t | t in old(registry.limiters) && t != old(Tags())[id] && t != c.tag ::
              t in registry.limiters && registry.limiters[t] == old(registry.limiters)[t])
        && c.tag in registry.limiters && registry.limiters[c.tag] == c.limiter
        && old(registry.limiters.Keys) - {old(Tags())[id]} + {c.tag} <= registry.limiters.Keys
    {
      hide *;
      ghost var tags, held, objects := Tags(), InUse(), Limiters();
      Apart(id, c);
      LeadsTo(id, c);
      survives := c.NodeInfoMonitor(reply);
      Retagged(id, c, tags, held, objects);
      if survives || old(Tags()[id] in server.inbounds) {
        Revalid(id, c);
      }
      if old(Exact()) {
        Reregistered(old(registry.limiters), registry.limiters, tags[id], c.tag, c.limiter);
      }
    }

    /** ... and whether the machine stays exact. */
    method Monitor(id: int, c: Controller, reply: MonitorReply) returns (survives: bool)
      requires Valid() && id in controllers && controllers[id] == c
      modifies c`tag, c`protocol, c`userList, c`limiter, c.limiter
      modifies server`inbounds, server`uidMap, server`counters, server`nodeReportMinTrafficBytes, registry
      ensures survives || old(Exact()) ==> Valid()
      ensures Limiters() <= old(Limiters()) + {c.limiter} && (c.limiter == old(c.limiter) || fresh(c.limiter))
      ensures survives <==>
        (reply.Reloads() ==> old(Tags()[id] in server.inbounds) && (reply.rules && reply.cert ==> reply.created))
      ensures old(Exact()) ==> (Exact() <==> (reply.Reloads() ==> reply.Rebuilds()))
    {
      hide *;
      ghost var tags, held, inbounds, registered := Tags(), InUse(), server.inbounds.Keys, registry.limiters;
      Apart(id, c);
      Parts();
      ExactMeans();
      survives := Turn(id, c, reply);
      if old(Exact()) {
        TagIsFree(id, c);
        StaysExact(tags, held, inbounds, registered, id, c, !reply.Reloads(), reply.Rebuilds());
      }
    }

    lemma StaysExact(tags: map<int, string>, held: map<int, Limiter?>, inbounds: set<string>,
        registered: map<string, Limiter>, id: int, c: Controller, same: bool, rebuilds: bool)
      requires id in tags && tags.Keys == held.Keys && Tags() == tags[id := c.tag] && InUse() == held[id := c.limiter]
      requires Serves(tags, inbounds, registered.Keys) && Leads(tags, held, registered)
      requires forall k | k in tags && k != id :: tags[k] != tags[id]
      requires forall k | k in Tags() && k != id :: Tags()[k] != c.tag
      requires same ==> c.tag == tags[id] && server.inbounds.Keys == inbounds
      requires !same ==> server.inbounds.Keys == inbounds - {tags[id]} + if rebuilds then {c.tag} else {}
      requires registered.Keys - {tags[id]} + {c.tag} <= registry.limiters.Keys
      requires forall t | t in registered && t != tags[id] && t != c.tag ::
        t in registry.limiters && registry.limiters[t] == registered[t]
      requires c.tag in registry.limiters && registry.limiters[c.tag] == c.limiter
      ensures Exact() <==> same || rebuilds
    {
      hide *;
      ExactMeans();
      assert forall k | k in tags && k != id :: Tags()[k] == tags[k];
      Reserved(tags, inbounds, registered.Keys, id, c.tag, same, rebuilds);
      LeadsStill(tags, held, registered, Tags(), InUse(), registry.limiters, id);
    }

    lemma LeadsTo(id: int, c: Controller)
      requires Valid() && id in controllers && controllers[id] == c
      ensures Exact() ==>
        c.tag in server.inbounds && c.tag in registry.limiters && registry.limiters[c.tag] == c.limiter
    {
      hide *;
      Parts();
      ExactMeans();
      if Exact() {
        LeadsAt(Tags(), InUse(), registry.limiters, id);
      }
    }

    lemma Reserved(tags: map<int, string>, inbounds: set<string>, limiters: set<string>, id: int, tag: string,
        same: bool, rebuilds: bool)
      requires id in tags && forall k | k in tags && k != id :: tags[k] != tags[id] && tags[k] != tag
      requires Serves(tags, inbounds, limiters) && Tags() == tags[id := tag]
      requires same ==> tag == tags[id] && server.inbounds.Keys == inbounds
      requires !same ==> server.inbounds.Keys == inbounds - {tags[id]} + if rebuilds then {tag} else {}
      requires limiters - {tags[id]} + {tag} <= registry.limiters.Keys
      ensures Serves(Tags(), server.inbounds.Keys, registry.limiters.Keys) <==> same || rebuilds
    {
      hide Serves, Tags;
      ServesHas(tags, inbounds, limiters, id);
      TagReplaced(tags, inbounds, limiters, id, tag);
      TagMissing(tags, inbounds, limiters, registry.limiters.Keys, id, tag);
      ServesMore(Tags(), inbounds - {tags[id]} + {tag}, limiters - {tags[id]} + {tag}, registry.limiters.Keys);
      assert inbounds - {tags[id]} + {} == inbounds - {tags[id]};
      assert tags[id := tags[id]] == tags;
    }

    lemma Blank()
      requires controllers == map[] && server.inbounds == map[]
      ensures Exact() && Held() == {} && Limiters() == {}
    {
    }

    lemma ExactMeans()
      ensures Exact() <==>
        Serves(Tags(), server.inbounds.Keys, registry.limiters.Keys) && Leads(Tags(), InUse(), registry.limiters)
      ensures forall k | k in controllers :: InUse()[k] == controllers[k].limiter
      ensures Exact() ==> forall k | k in Tags() :: Tags()[k] in server.inbounds && Tags()[k] in registry.limiters
    {
    }

    lemma Apart(id: int, c: Controller)
      requires Valid() && id in controllers && controllers[id] == c
      ensures c.Ready() && Carries(id, c) && c.server == server && c.registry == registry
      ensures c.apiHost == apiHost && c.nodeId == id && c.name == NameFor(id)
      ensures c.nodeLimit == nodeLimit && c.reportMinTraffic == reportMinTraffic
      ensures c.tag == if c.name == "" then c.TagFor(c.protocol) else c.name
      ensures Tags().Keys == controllers.Keys && Tags()[id] == c.tag
      ensures forall k | k in controllers && k != id ::
        controllers[k] != c && Owns(k, controllers[k]) && Tags()[k] == controllers[k].tag
        && controllers[k].limiter in Limiters() && Tags()[k] != c.tag && InUse()[k] == controllers[k].limiter
    {
      TagIsFree(id, c);
    }

    lemma Retagged(id: int, c: Controller, tags: map<int, string>, held: map<int, Limiter?>, limiters: set<object?>)
      requires id in controllers && controllers[id] == c && tags.Keys == controllers.Keys == held.Keys
      requires forall k | k in controllers && k != id ::
        tags[k] == controllers[k].tag && controllers[k].limiter in limiters && held[k] == controllers[k].limiter
      ensures Tags() == tags[id := c.tag] && Limiters() <= limiters + {c.limiter}
      ensures InUse() == held[id := c.limiter]
    {
      var t := tags[id := c.tag];
      assert t.Keys == Tags().Keys;
      assert forall k | k in t :: Tags()[k] == t[k];
      var h := held[id := c.limiter];
      assert h.Keys == InUse().Keys;
      assert forall k | k in h :: InUse()[k] == h[k];
    }

    lemma Revalid(id: int, c: Controller)
      requires id in controllers && controllers[id] == c && c.Ready() && c.server == server && c.registry == registry
      requires forall k | k in controllers && k != id :: Owns(k, controllers[k])
      requires c.apiHost == apiHost && c.nodeId == id && c.name == NameFor(id)
      requires c.tag == if c.name == "" then c.TagFor(c.protocol) else c.name
      requires c.nodeLimit == nodeLimit && c.reportMinTraffic == reportMinTraffic
      ensures Valid() && Carries(id, c)
    {
    }
  }
}
