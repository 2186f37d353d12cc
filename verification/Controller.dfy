/** The controller of one node (node/controller.go, node/task.go): what starting, closing and the node
    monitor do to the limiter registry, to the proxy core and to the user tables. */
module Controller {
  import opened Formats
  import opened Limiter
  import opened UserDiff
  import opened Sing
  import opened Convergence
  import opened Refusals

  /** The limiters by tag, a package variable of the source. */
  class Registry {
    var limiters: map<string, Limiter>

    constructor ()
      ensures limiters == map[]
    {
      limiters := map[];
    }
  }

  /** What a start meets: the fetched values, None standing for an error, and which of the later
      steps succeed. */
  datatype StartReply = StartReply(
    protocol: Option<string>, users: Option<seq<UserInfo>>, alive: Option<map<int, int>>,
    rules: bool, cert: bool, created: bool, accepted: bool)
  {
    predicate Registers() {
      protocol.Some? && users.Some? && users.value != [] && alive.Some?
    }

    predicate Creates() {
      Registers() && rules && cert && created
    }

    predicate Succeeds() {
      Creates() && accepted
    }
  }

  lemma ReplyMeans(reply: StartReply)
    ensures reply.Registers() <==>
      reply.protocol.Some? && reply.users.Some? && |reply.users.value| != 0 && reply.alive.Some?
    ensures reply.Creates() <==> reply.Registers() && reply.rules && reply.cert && reply.created
    ensures reply.Succeeds() <==> reply.Creates() && reply.accepted
  {
  }

  /** What the node monitor meets.  The outer None is a failed fetch, the inner one "not modified". */
  datatype MonitorReply = MonitorReply(
    node: Option<Option<string>>, users: Option<Option<seq<UserInfo>>>, alive: Option<Option<map<int, int>>>,
    rules: bool, cert: bool, created: bool, accepted: bool, removed: bool)
  {
    predicate Fetched() {
      node.Some? && users.Some? && alive.Some?
    }

    /** Nothing fails after the fetches. */
    predicate Smooth() {
      rules && cert && created && accepted && removed
    }

    /** The inbound of a changed node is set up again. */
    predicate Rebuilds() {
      rules && cert && created
    }

    predicate Reloads() {
      Fetched() && node.value.Some?
    }

    predicate Refreshes() {
      Fetched() && node.value.None? && users.value.Some? && users.value.value != []
    }

    function Counts(): map<int, int>
      requires Fetched()
    {
      if alive.value.Some? then alive.value.value else map[]
    }
  }

  /** The inbounds after users have been taken out of that of the tag and others entered, unless it refuses. */
  ghost function Exchanged(inbounds: map<string, set<string>>, tag: string, deleted: seq<UserInfo>,
      added: seq<UserInfo>, removed: bool, accepted: bool): map<string, set<string>> {
    if tag !in inbounds || (deleted != [] && !removed) then inbounds
    else if added != [] && !accepted then inbounds[tag := inbounds[tag] - Uuids(deleted)]
    else inbounds[tag := inbounds[tag] - Uuids(deleted) + Uuids(added)]
  }

  lemma ExchangedMeans(inbounds: map<string, set<string>>, tag: string, deleted: seq<UserInfo>, added: seq<UserInfo>,
      removed: bool, accepted: bool)
    ensures var r := Exchanged(inbounds, tag, deleted, added, removed, accepted);
            && r.Keys == inbounds.Keys && (forall t | t in inbounds && t != tag :: r[t] == inbounds[t])
            && (tag in inbounds ==> r[tag] == if deleted != [] && !removed then inbounds[tag]
                  else if added != [] && !accepted then inbounds[tag] - Uuids(deleted)
                  else inbounds[tag] - Uuids(deleted) + Uuids(added))
  {
  }

  lemma NobodyExchanged(inbounds: map<string, set<string>>, tag: string, m: map<string, int>)
    ensures Uuids([]) == {} && WithUids(m, []) == m && m - {} == m
    ensures forall s: set<string> :: s + {} == s == s - {}
    ensures tag in inbounds ==> inbounds[tag := inbounds[tag]] == inbounds
  {
  }

  lemma MonitorMeans(reply: MonitorReply)
    ensures reply.Reloads() ==> reply.Fetched()
    ensures reply.Reloads() ==>
      reply.Counts() == if reply.alive.value.Some? then reply.alive.value.value else map[]
    ensures reply.Fetched() <==> reply.node.Some? && reply.users.Some? && reply.alive.Some?
    ensures reply.Reloads() <==> reply.Fetched() && reply.node.value.Some?
    ensures reply.Rebuilds() <==> reply.rules && reply.cert && reply.created
    ensures reply.Smooth() <==> reply.Rebuilds() && reply.accepted && reply.removed
    ensures reply.Refreshes() <==>
      reply.Fetched() && reply.node.value.None? && reply.users.value.Some? && reply.users.value.value != []
  {
  }

  lemma KeepIsStep(v: View, alive: Option<map<int, int>>)
    ensures Next(v, Keep(alive), v.(limiter := WithAlive(v.limiter, alive)))
  {
    hide WithAlive;
  }

  lemma ReloadIsStep(v: View, tag: string, users: Option<seq<UserInfo>>, counts: map<int, int>)
    ensures Next(v, Reload(tag, users, counts), Reloaded(v, tag, users, counts))
  {
  }

  lemma AfterSmooth(v: View, users: seq<UserInfo>, alive: Option<map<int, int>>, deleted: seq<UserInfo>,
      added: seq<UserInfo>)
    ensures var w := v.(limiter := WithAlive(v.limiter, alive));
            AfterRefresh(w, users, deleted, added, true, true, true) == Refreshed(v, users, alive, deleted, added)
  {
    hide WithUsers, WithoutUsers, WithUids;
  }

  /** A refresh that nothing hinders is a step. */
  lemma RefreshIsStep(v: View, users: seq<UserInfo>, alive: Option<map<int, int>>, v': View)
    requires users != []
    ensures Follows(v.(limiter := WithAlive(v.limiter, alive)), users, true, true, true, v') ==>
      Next(v, Refresh(users, alive), v')
  {
    hide IsDiff, AfterRefresh, Refreshed, Next, WithAlive;
    var w := v.(limiter := WithAlive(v.limiter, alive));
    if Follows(w, users, true, true, true, v') {
      var deleted, added :|
        IsDiff(w.users, users, deleted, added) && v' == AfterRefresh(w, users, deleted, added, true, true, true);
      AfterSmooth(v, users, alive, deleted, added);
      RefreshedIsNext(v, users, alive, deleted, added);
    }
  }

  /** The tables after a refresh that the inbound refuses. */
  ghost predicate IsRefused(v: View, users: seq<UserInfo>, alive: Option<map<int, int>>, v': View) {
    exists s: Setback :: s.Refusal? && s.fetched == users && s.alive == alive && Happens(v, s, v')
  }

  /** A refresh is a step of the convergence runs or a refusal, as long as there is an inbound. */
  lemma RefreshOrRefused(v: View, users: seq<UserInfo>, alive: Option<map<int, int>>, removed: bool, accepted: bool,
      v': View)
    requires users != []
    ensures Follows(v.(limiter := WithAlive(v.limiter, alive)), users, true, removed, accepted, v') ==>
      Next(v, Refresh(users, alive), v') || IsRefused(v, users, alive, v')
  {
    hide IsDiff, Refreshed, Next, WithAlive, WithUids;
    var w := v.(limiter := WithAlive(v.limiter, alive));
    if Follows(w, users, true, removed, accepted, v') {
      var deleted, added :|
        IsDiff(w.users, users, deleted, added) && v' == AfterRefresh(w, users, deleted, added, true, removed, accepted);
      AfterSmooth(v, users, alive, deleted, added);
      RefreshedIsNext(v, users, alive, deleted, added);
      if v' != Refreshed(v, users, alive, deleted, added) {
        var gone := !(deleted != [] && !removed);
        assert v' == Refused(w, deleted, added, gone);
        assert Happens(v, Refusal(users, alive, deleted, added, gone), v');
      }
    }
  }

  class Controller {
    const server: Sing
    const registry: Registry
    const apiHost: string
    const name: string
    const nodeId: int
    const nodeLimit: int
    const reportMinTraffic: int
    var tag: string
    var protocol: string
    var userList: seq<UserInfo>
    var limiter: Limiter?
    ghost var closes: nat

    constructor (server: Sing, registry: Registry, apiHost: string, name: string, nodeId: int, nodeLimit: int,
        reportMinTraffic: int)
      ensures this.server == server && this.registry == registry && this.apiHost == apiHost
      ensures this.name == name && this.nodeId == nodeId && closes == 0
      ensures this.nodeLimit == nodeLimit && this.reportMinTraffic == reportMinTraffic
    {
      this.server, this.registry, this.apiHost, this.name := server, registry, apiHost, name;
      this.nodeId, this.nodeLimit, this.reportMinTraffic := nodeId, nodeLimit, reportMinTraffic;
      tag, protocol, userList, limiter, closes := "", "", [], null, 0;
    }

    function TagFor(p: string): string {
      if name == "" then NodeTag(apiHost, p, nodeId) else name
    }

    lemma TagMeans(p: string)
      ensures TagFor(p) == if name == "" then NodeTag(apiHost, p, nodeId) else name
    {
    }

    lemma BlankMeans()
      ensures Blank() == View(tag, [], Fresh(nodeLimit, map[]), {}, server.uidMap)
    {
    }

    lemma StartTables(blank: View, reply: StartReply)
      requires limiter != null && reply.users == Some(userList) && reply.alive.Some?
      requires blank.limiter == Fresh(nodeLimit, map[])
      requires limiter.Value() == WithUsers(Fresh(nodeLimit, reply.alive.value), tag, userList)
      requires server.uidMap == WithUids(blank.uidMap, userList)
      ensures tag in server.inbounds && server.inbounds[tag] == Uuids(userList) ==>
        Tables() == Reloaded(blank, tag, reply.users, reply.alive.value)
    {
    }

    method Start(reply: StartReply) returns (ok: bool)
      modifies this`tag, this`protocol, this`userList, this`limiter
      modifies server`inbounds, server`uidMap, server`nodeReportMinTrafficBytes, registry
      ensures ok == reply.Succeeds()
      ensures reply.Registers() ==> protocol == reply.protocol.value && tag == TagFor(protocol)
      ensures reply.Registers() ==> tag == if name == "" then NodeTag(apiHost, reply.protocol.value, nodeId) else name
      ensures registry.limiters.Keys == old(registry.limiters.Keys) + if reply.Registers() then {tag} else {}
      ensures forall t | t in old(registry.limiters) && t != tag :: registry.limiters[t] == old(registry.limiters)[t]
      ensures !reply.Registers() ==> registry.limiters == old(registry.limiters)
      ensures server.inbounds == if !reply.Creates() then old(server.inbounds)
        else old(server.inbounds)[tag := if ok then Uuids(reply.users.value) else {}]
      ensures ok ==>
        limiter != null && fresh(limiter) && registry.limiters[tag] == limiter && limiter.speedLimit == nodeLimit
      ensures server.uidMap ==
        if reply.Creates() then WithUids(old(server.uidMap), reply.users.value) else old(server.uidMap)
      ensures server.nodeReportMinTrafficBytes == if reply.Registers() && reply.rules && reply.cert
        then old(server.nodeReportMinTrafficBytes)[tag := reportMinTraffic * 1024]
        else old(server.nodeReportMinTrafficBytes)
      ensures ok ==> Tables() == Reloaded(old(Blank()), tag, reply.users, reply.alive.value)
    {
      hide *;
      ReplyMeans(reply);
      ghost var blank := Blank();
      BlankMeans();
      TagMeans(if reply.protocol.Some? then reply.protocol.value else "");
      if reply.protocol.None? || reply.users.None? {
        return false;
      }
      userList := reply.users.value;
      if |userList| == 0 || reply.alive.None? {
        return false;
      }
      protocol := reply.protocol.value;
      tag := TagFor(protocol);
      var l := new Limiter(tag, nodeLimit, userList, reply.alive.value);
      registry.limiters := registry.limiters[tag := l];
      ok := SetUp(reply, l);
      if ok {
        StartTables(blank, reply);
      }
    }

    /** The rest of Start, with the limiter registered. */
    method SetUp(reply: StartReply, l: Limiter) returns (ok: bool)
      requires reply.Registers() && userList == reply.users.value
      modifies this`limiter, server`inbounds, server`uidMap, server`nodeReportMinTrafficBytes
      ensures ok == reply.Succeeds() && (ok ==> limiter == l)
      ensures server.inbounds == if !reply.Creates() then old(server.inbounds)
        else old(server.inbounds)[tag := if ok then Uuids(reply.users.value) else {}]
      ensures server.uidMap == if reply.Creates() then WithUids(old(server.uidMap), userList) else old(server.uidMap)
      ensures server.nodeReportMinTrafficBytes == if reply.rules && reply.cert
        then old(server.nodeReportMinTrafficBytes)[tag := reportMinTraffic * 1024]
        else old(server.nodeReportMinTrafficBytes)
    {
      hide *;
      ReplyMeans(reply);
      if !reply.rules {
        return false;
      }
      limiter := l;
      if !reply.cert {
        return false;
      }
      ok := server.AddNode(tag, reportMinTraffic, reply.created);
      if !ok {
        return false;
      }
      ok := server.AddUsers(tag, userList, reply.accepted);
      assert {} + Uuids(userList) == Uuids(userList);
    }

    method Close() returns (ok: bool)
      modifies this`closes, server`inbounds, registry
      ensures ok <==> tag in old(server.inbounds)
      ensures registry.limiters == old(registry.limiters) - {tag}
      ensures server.inbounds == old(server.inbounds) - {tag}
      ensures closes == old(closes) + 1
    {
      registry.limiters := registry.limiters - {tag};
      closes := closes + 1;
      ok := server.DelNode(tag);
    }

    /** Started, with a limiter at the node's limit. */
    ghost predicate Ready()
      reads this, limiter, server
    {
      limiter != null && limiter.speedLimit == nodeLimit && server.Valid()
    }

    /** The user tables of the node. */
    ghost function Tables(): View
      reads this, limiter, server
      requires limiter != null
    {
      View(tag, userList, limiter.Value(), if tag in server.inbounds then server.inbounds[tag] else {}, server.uidMap)
    }

    /** Before a start: no users, and the uids other nodes have entered. */
    ghost function Blank(): View
      reads this, server
    {
      View(tag, [], Fresh(nodeLimit, map[]), {}, server.uidMap)
    }

    lemma ReadyMeans()
      ensures Ready() <==> limiter != null && limiter.speedLimit == nodeLimit && server.Valid()
    {
    }

    lemma TablesMean()
      requires limiter != null
      ensures var v := Tables();
              && v.tag == tag && v.users == userList && v.limiter == limiter.Value() && v.uidMap == server.uidMap
              && v.inbound == (if tag in server.inbounds then server.inbounds[tag] else {})
              && v.limiter.speedLimit == limiter.speedLimit
    {
    }

    lemma ReloadTables(v: View, reply: MonitorReply)
      requires reply.Reloads() && limiter != null && v.limiter.speedLimit == nodeLimit
      requires userList == if reply.users.value.Some? then reply.users.value.value else v.users
      requires tag in server.inbounds && server.inbounds[tag] == Uuids(userList)
      requires server.uidMap == WithUids(v.uidMap, userList)
      ensures limiter.Value() == WithUsers(Fresh(nodeLimit, reply.Counts()), tag, userList) ==>
        Tables() == Reloaded(v, tag, reply.users.value, reply.Counts())
      ensures tag == v.tag && limiter.Value() == WithAlive(v.limiter, reply.alive.value) ==>
        Tables() == ReloadedNamed(v, reply.users.value, reply.alive.value)
    {
    }

    lemma AliveOnly(s: State, alive: Option<map<int, int>>)
      ensures WithAlive(s, alive).users == s.users
    {
    }

    /** nodeInfoMonitor.  The result is false where the source panics. */
    method NodeInfoMonitor(reply: MonitorReply) returns (survives: bool)
      requires Ready()
      modifies this`tag, this`protocol, this`userList, this`limiter, limiter
      modifies server`inbounds, server`uidMap, server`counters, server`nodeReportMinTrafficBytes, registry
      ensures Ready()
      ensures !reply.Fetched() ==> survives && Tables() == old(Tables())
      ensures reply.Fetched() && !reply.Reloads() && !reply.Refreshes() ==>
        && survives && Next(old(Tables()), Keep(reply.alive.value), Tables())
        && limiter.aliveList == (if reply.alive.value.Some? then reply.alive.value.value else old(limiter.aliveList))
      ensures reply.Refreshes() ==>
        Follows(old(Tables()).(limiter := WithAlive(old(limiter.Value()), reply.alive.value)), reply.users.value.value,
                old(tag in server.inbounds), reply.removed, reply.accepted, Tables())
      ensures reply.Refreshes() && old(tag in server.inbounds) && reply.Smooth() ==>
        survives && Next(old(Tables()), Refresh(reply.users.value.value, reply.alive.value), Tables())
      ensures !reply.Reloads() ==> survives && tag == old(tag) && protocol == old(protocol) && limiter == old(limiter)
      ensures !reply.Reloads() ==>
        && registry.limiters == old(registry.limiters) && server.inbounds.Keys == old(server.inbounds.Keys)
        && server.nodeReportMinTrafficBytes == old(server.nodeReportMinTrafficBytes)
      ensures forall t | t in old(server.inbounds) && t != old(tag) && t != tag ::
        t in server.inbounds && server.inbounds[t] == old(server.inbounds)[t]
      ensures reply.Refreshes() && old(tag in server.inbounds) ==>
        || Next(old(Tables()), Refresh(reply.users.value.value, reply.alive.value), Tables())
        || IsRefused(old(Tables()), reply.users.value.value, reply.alive.value, Tables())
      ensures limiter == old(limiter) || fresh(limiter)
      ensures reply.Reloads() && name == "" && old(tag in server.inbounds) && reply.Smooth() ==>
        survives && Next(old(Tables()), Reload(tag, reply.users.value, reply.Counts()), Tables())
      ensures reply.Reloads() ==>
        (survives <==> old(tag in server.inbounds) && (reply.rules && reply.cert ==> reply.created))
      ensures reply.Reloads() && old(tag in server.inbounds) ==>
        && protocol == reply.node.value.value && tag == (if name == "" then TagFor(protocol) else old(tag))
        && server.inbounds.Keys == old(server.inbounds.Keys) - {old(tag)} + (if reply.Rebuilds() then {tag} else {})
        && registry.limiters ==
             (if name == "" then (old(registry.limiters) - {old(tag)})[tag := limiter] else old(registry.limiters))
        && server.nodeReportMinTrafficBytes == (if reply.rules && reply.cert
             then old(server.nodeReportMinTrafficBytes)[tag := reportMinTraffic * 1024]
             else old(server.nodeReportMinTrafficBytes))
      ensures reply.Reloads() && name != "" ==>
        limiter == old(limiter) && limiter.Value().users == old(limiter.Value().users)
      ensures reply.Reloads() && name != "" && old(tag in server.inbounds) && reply.Smooth() ==>
        Tables() == ReloadedNamed(old(Tables()), reply.users.value, reply.alive.value)
    {
      hide *;
      MonitorMeans(reply);
      ReadyMeans();
      TablesMean();
      ghost var v := Tables();
      if !reply.Fetched() {
        return true;
      }
      if reply.node.value.Some? {
        survives := ReloadNode(reply);
        ReloadIsStep(v, tag, reply.users.value, reply.Counts());
        return;
      }
      SetAlive(reply.alive.value);
      KeepIsStep(v, reply.alive.value);
      if reply.users.value.None? || |reply.users.value.value| == 0 {
        return true;
      }
      ghost var w, deleted, added := Tables(), [], [];
      deleted, added := RefreshUsers(reply.users.value.value, reply.accepted, reply.removed);
      FollowsBy(w, reply.users.value.value, deleted, added, old(tag in server.inbounds), reply.removed, reply.accepted);
      RefreshIsStep(v, reply.users.value.value, reply.alive.value, Tables());
      RefreshOrRefused(v, reply.users.value.value, reply.alive.value, reply.removed, reply.accepted, Tables());
      return true;
    }

    /** The new alive counts, if there are any. */
    method SetAlive(alive: Option<map<int, int>>)
      requires Ready()
      modifies limiter`aliveList
      ensures Ready() && Tables() == old(Tables()).(limiter := WithAlive(old(Tables()).limiter, alive))
      ensures limiter.aliveList == if alive.Some? then alive.value else old(limiter.aliveList)
    {
      if alive.Some? {
        limiter.aliveList := alive.value;
      }
    }

    /** The part of the monitor for a node that has not changed. */
    method RefreshUsers(users: seq<UserInfo>, accepted: bool, removed: bool)
      returns (ghost deleted: seq<UserInfo>, ghost added: seq<UserInfo>)
      requires Ready() && users != []
      modifies this`userList, limiter, server`inbounds, server`uidMap, server`counters
      ensures Ready() && server.inbounds.Keys == old(server.inbounds.Keys)
      ensures forall t | t in old(server.inbounds) && t != tag :: server.inbounds[t] == old(server.inbounds)[t]
      ensures IsDiff(old(userList), users, deleted, added)
      ensures Tables() ==
        AfterRefresh(old(Tables()), users, deleted, added, old(tag in server.inbounds), removed, accepted)
      ensures server.counters == if deleted != [] && tag in old(server.inbounds) && tag in old(server.counters)
        then old(server.counters)[tag := old(server.counters)[tag] - Uuids(deleted)] else old(server.counters)
    {
      hide *;
      ReadyMeans();
      TablesMean();
      ghost var v, present := Tables(), tag in server.inbounds;
      var gone, new' := CompareUserList(userList, users);
      deleted, added := gone, new';
      var ok := Exchange(gone, new', removed, accepted);
      AfterRefreshMeans(v, users, deleted, added, present, removed, accepted);
      ExchangedMeans(old(server.inbounds), tag, deleted, added, removed, accepted);
      NobodyExchanged(old(server.inbounds), tag, v.uidMap);
      if ok {
        if |new'| > 0 || |gone| > 0 {
          limiter.UpdateUser(tag, new', gone);
        }
        userList := users;
      }
      ReadyMeans();
      TablesMean();
    }

    /** Its calls to the core. */
    method Exchange(deleted: seq<UserInfo>, added: seq<UserInfo>, removed: bool, accepted: bool) returns (ok: bool)
      requires server.Valid()
      modifies server`inbounds, server`uidMap, server`counters
      ensures server.Valid()
      ensures var present := tag in old(server.inbounds);
              ok <==> (deleted == [] || (present && removed)) && (added == [] || (present && accepted))
      ensures server.inbounds == Exchanged(old(server.inbounds), tag, deleted, added, removed, accepted)
      ensures server.uidMap == if tag !in old(server.inbounds) then old(server.uidMap)
        else if deleted != [] && !removed then old(server.uidMap) - Uuids(deleted)
        else WithUids(old(server.uidMap) - Uuids(deleted), added)
      ensures server.counters == if deleted != [] && tag in old(server.inbounds) && tag in old(server.counters)
        then old(server.counters)[tag := old(server.counters)[tag] - Uuids(deleted)] else old(server.counters)
    {
      hide WithUids, Uuids, Sing.Valid;
      NobodyExchanged(server.inbounds, tag, server.uidMap);
      NobodyExchanged(server.inbounds, tag, server.uidMap - Uuids(deleted));
      if |deleted| > 0 {
        ok := server.DelUsers(deleted, tag, removed);
        if !ok {
          return;
        }
      }
      if |added| > 0 {
        ok := server.AddUsers(tag, added, accepted);
        return;
      }
      return true;
    }

    /** The part of the monitor for a changed node. */
    method ReloadNode(reply: MonitorReply) returns (survives: bool)
      requires Ready() && reply.Reloads()
      modifies this`tag, this`protocol, this`userList, this`limiter, limiter
      modifies server`inbounds, server`uidMap, server`nodeReportMinTrafficBytes, registry
      ensures Ready() && (limiter == old(limiter) || fresh(limiter))
      ensures survives <==> old(tag in server.inbounds) && (reply.rules && reply.cert ==> reply.created)
      ensures name == "" && old(tag in server.inbounds) && reply.Smooth() ==>
        Tables() == Reloaded(old(Tables()), tag, reply.users.value, reply.Counts())
      ensures old(tag in server.inbounds) ==>
        && protocol == reply.node.value.value && tag == (if name == "" then TagFor(protocol) else old(tag))
        && server.inbounds.Keys == old(server.inbounds.Keys) - {old(tag)} + (if reply.Rebuilds() then {tag} else {})
        && registry.limiters ==
             (if name == "" then (old(registry.limiters) - {old(tag)})[tag := limiter] else old(registry.limiters))
        && server.nodeReportMinTrafficBytes == (if reply.rules && reply.cert
             then old(server.nodeReportMinTrafficBytes)[tag := reportMinTraffic * 1024]
             else old(server.nodeReportMinTrafficBytes))
      ensures forall t | t in old(server.inbounds) && t != old(tag) && t != tag ::
        t in server.inbounds && server.inbounds[t] == old(server.inbounds)[t]
      ensures name != "" ==> limiter == old(limiter) && limiter.Value().users == old(limiter.Value().users)
      ensures name != "" && old(tag in server.inbounds) && reply.Smooth() ==>
        Tables() == ReloadedNamed(old(Tables()), reply.users.value, reply.alive.value)
    {
      hide *;
      ReadyMeans();
      MonitorMeans(reply);
      TablesMean();
      ghost var v := Tables();
      protocol := reply.node.value.value;
      if reply.users.value.Some? {
        userList := reply.users.value.value;
      }
      var ok := server.DelNode(tag);
      ReadyMeans();
      if !ok {
        return false;
      }
      survives := Rebuild(reply, v);
      ReadyMeans();
    }

    /** The limiter and the inbound of the changed node, whose tables were `v`. */
    method Rebuild(reply: MonitorReply, ghost v: View) returns (survives: bool)
      requires limiter != null && limiter.speedLimit == nodeLimit && reply.Reloads()
      requires v.tag == tag && v.limiter == limiter.Value() && v.uidMap == server.uidMap
      requires v.limiter.speedLimit == nodeLimit
      requires userList == if reply.users.value.Some? then reply.users.value.value else v.users
      modifies this`tag, this`limiter, limiter`aliveList, registry
      modifies server`inbounds, server`uidMap, server`nodeReportMinTrafficBytes
      ensures limiter != null && limiter.speedLimit == nodeLimit
      ensures survives <==> (reply.rules && reply.cert ==> reply.created)
      ensures tag == if name == "" then TagFor(protocol) else old(tag)
      ensures if name == "" then fresh(limiter) else limiter == old(limiter) && limiter.Value().users == v.limiter.users
      ensures registry.limiters ==
        if name == "" then (old(registry.limiters) - {old(tag)})[tag := limiter] else old(registry.limiters)
      ensures server.inbounds == if !reply.Rebuilds() then old(server.inbounds)
        else old(server.inbounds)[tag := if reply.accepted then Uuids(userList) else {}]
      ensures server.uidMap == if reply.Rebuilds() then WithUids(old(server.uidMap), userList) else old(server.uidMap)
      ensures server.nodeReportMinTrafficBytes == if reply.rules && reply.cert
        then old(server.nodeReportMinTrafficBytes)[tag := reportMinTraffic * 1024]
        else old(server.nodeReportMinTrafficBytes)
      ensures reply.Smooth() && name == "" ==> Tables() == Reloaded(v, tag, reply.users.value, reply.Counts())
      ensures reply.Smooth() && name != "" ==> Tables() == ReloadedNamed(v, reply.users.value, reply.alive.value)
    {
      hide *;
      MonitorMeans(reply);
      AliveOnly(limiter.Value(), reply.alive.value);
      UpdateLimiter(reply.alive.value, reply.Counts());
      if !(reply.rules && reply.cert) {
        return true;
      }
      survives := RecreateNode(reply.created, reply.accepted);
      if reply.Smooth() {
        ReloadTables(v, reply);
      }
    }

    /** The end of a reload.  The source panics when the inbound cannot be set up. */
    method RecreateNode(created: bool, accepted: bool) returns (survives: bool)
      modifies server`inbounds, server`uidMap, server`nodeReportMinTrafficBytes
      ensures survives == created
      ensures server.inbounds == if !created then old(server.inbounds)
        else old(server.inbounds)[tag := if accepted then Uuids(userList) else {}]
      ensures server.uidMap == if created then WithUids(old(server.uidMap), userList) else old(server.uidMap)
      ensures server.nodeReportMinTrafficBytes ==
        old(server.nodeReportMinTrafficBytes)[tag := reportMinTraffic * 1024]
    {
      hide WithUids, Uuids;
      survives := server.AddNode(tag, reportMinTraffic, created);
      if survives {
        var ok := server.AddUsers(tag, userList, accepted);
        assert {} + Uuids(userList) == Uuids(userList);
      }
    }

    /** A reload of an unnamed node replaces the limiter; a named one keeps limiter, users and all, and
        gets the alive counts only. */
    method UpdateLimiter(alive: Option<map<int, int>>, counts: map<int, int>)
      requires limiter != null && limiter.speedLimit == nodeLimit
      requires counts == if alive.Some? then alive.value else map[]
      modifies this`tag, this`limiter, limiter`aliveList, registry
      ensures limiter != null && limiter.speedLimit == nodeLimit
      ensures name == "" ==> fresh(limiter) && tag == TagFor(protocol)
      ensures name == "" ==> limiter.Value() == WithUsers(Fresh(nodeLimit, counts), tag, userList)
      ensures registry.limiters ==
        if name == "" then (old(registry.limiters) - {old(tag)})[tag := limiter] else old(registry.limiters)
      ensures name != "" ==>
        tag == old(tag) && limiter == old(limiter) && limiter.Value() == WithAlive(old(limiter.Value()), alive)
    {
      hide WithUsers, NodeTag;
      if |name| == 0 {
        var oldTag := tag;
        tag := NodeTag(apiHost, protocol, nodeId);
        registry.limiters := registry.limiters - {oldTag};
        limiter := new Limiter(tag, nodeLimit, userList, counts);
        registry.limiters := registry.limiters[tag := limiter];
        WithUsersFields(Fresh(nodeLimit, counts), tag, userList);
      }
      if alive.Some? {
        limiter.aliveList := alive.value;
      }
    }
  }
}
