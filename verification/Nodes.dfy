/** The tables of the machine (node/machine.go) as values: which nodes a synchronisation starts, and how the
    tags, the inbounds, the controllers and their limiters change from one step to the next. */
module Nodes {
  import opened Formats
  import opened Controller
  import opened Limiter

  /** The nodes assigned to the machine, and what the start of each of them would meet. */
  datatype NodeList = NodeList(nodes: seq<int>, replies: seq<StartReply>)

  type Response = r: NodeList | |r.nodes| == |r.replies| witness NodeList([], [])

  datatype SyncResult = Synced | StartFailed | CloseFailed

  /** The i-th node is not skipped: it is not live on entry, and no earlier start of it succeeded. */
  ghost predicate Attempted(nodes: seq<int>, replies: seq<StartReply>, live: set<int>, i: nat)
    requires i < |nodes| == |replies|
  {
    nodes[i] !in live && forall j | 0 <= j < i && nodes[j] == nodes[i] :: !replies[j].Succeeds()
  }

  /** Some attempt among the first n fails. */
  ghost predicate SomeFails(nodes: seq<int>, replies: seq<StartReply>, live: set<int>, n: nat)
    requires n <= |nodes| == |replies|
  {
    exists i | 0 <= i < n :: Attempted(nodes, replies, live, i) && !replies[i].Succeeds()
  }

  /** The n-th start is the first attempt to fail. */
  ghost predicate FailsFirst(nodes: seq<int>, replies: seq<StartReply>, live: set<int>, n: nat)
    requires n < |nodes| == |replies|
  {
    Attempted(nodes, replies, live, n) && !replies[n].Succeeds() && !SomeFails(nodes, replies, live, n)
  }

  /** The nodes not live on entry for which one of the first n starts succeeds. */
  ghost function Startable(nodes: seq<int>, replies: seq<StartReply>, live: set<int>, n: nat): set<int>
    requires n <= |nodes| == |replies|
  {
    set i | 0 <= i < n && nodes[i] !in live && replies[i].Succeeds() :: nodes[i]
  }

  /** These nodes had been started when the first attempt failed. */
  ghost predicate StoppedAfter(nodes: seq<int>, replies: seq<StartReply>, live: set<int>, started: set<int>)
    requires |nodes| == |replies|
  {
    exists n | 0 <= n < |nodes| :: FailsFirst(nodes, replies, live, n) && started == Startable(nodes, replies, live, n)
  }

  /** Some node of the list that is not live fails to start. */
  ghost predicate CannotStart(r: Response, live: set<int>) {
    SomeFails(r.nodes, r.replies, live, |r.nodes|)
  }

  /** The nodes of the list that are not live and start. */
  ghost function CanStart(r: Response, live: set<int>): set<int> {
    Startable(r.nodes, r.replies, live, |r.nodes|)
  }

  lemma ResponseMeans(r: Response, live: set<int>)
    ensures CannotStart(r, live) == SomeFails(r.nodes, r.replies, live, |r.nodes|)
    ensures CanStart(r, live) == Startable(r.nodes, r.replies, live, |r.nodes|)
  {
  }

  /** No start fails after its inbound has been created. */
  predicate NoneLate(replies: seq<StartReply>) {
    forall i | 0 <= i < |replies| :: replies[i].Creates() ==> replies[i].accepted
  }

  predicate Distinct(order: seq<int>) {
    forall i, j | 0 <= i < j < |order| :: order[i] != order[j]
  }

  lemma NotAgain(order: seq<int>, j: nat)
    requires Distinct(order) && j < |order|
    ensures order[j] !in IdsOf(order[..j])
    ensures IdsOf(order[..j + 1]) == IdsOf(order[..j]) + {order[j]}
  {
  }

  function IdsOf(order: seq<int>): set<int> {
    set id | id in order
  }

  ghost function TagSet(tags: map<int, string>): set<string> {
    set k | k in tags :: tags[k]
  }

  ghost predicate Serves(tags: map<int, string>, inbounds: set<string>, limiters: set<string>) {
    inbounds == TagSet(tags) && TagSet(tags) <= limiters
  }

  /** Each tag leads to the limiter of its node. */
  ghost predicate Leads(tags: map<int, string>, held: map<int, Limiter?>, registered: map<string, Limiter>) {
    forall k | k in tags :: k in held && tags[k] in registered && registered[tags[k]] == held[k]
  }

  lemma LeadsMeans(tags: map<int, string>, held: map<int, Limiter?>, registered: map<string, Limiter>)
    requires Leads(tags, held, registered)
    ensures forall k | k in tags :: k in held && tags[k] in registered && registered[tags[k]] == held[k]
  {
  }

  lemma LeadsAt(tags: map<int, string>, held: map<int, Limiter?>, registered: map<string, Limiter>, k: int)
    requires Leads(tags, held, registered) && k in tags
    ensures k in held && tags[k] in registered && registered[tags[k]] == held[k]
  {
  }

  /** The registry of limiters after a node's tag and limiter have been exchanged, or left. */
  lemma Reregistered(before: map<string, Limiter>, after: map<string, Limiter>, tag: string, tag': string, l: Limiter?)
    requires (l != null && after == (before - {tag})[tag' := l]) || (after == before && tag' == tag)
    requires tag in before && (after == before ==> before[tag] == l)
    ensures forall t | t in before && t != tag && t != tag' :: t in after && after[t] == before[t]
    ensures before.Keys - {tag} + {tag'} <= after.Keys && after[tag'] == l
  {
  }

  /** They do after a change that touches one node only. */
  lemma LeadsStill(tags: map<int, string>, held: map<int, Limiter?>, registered: map<string, Limiter>,
      tags': map<int, string>, held': map<int, Limiter?>, registered': map<string, Limiter>, id: int)
    requires Leads(tags, held, registered)
    requires forall k | k in tags' && k != id ::
      k in tags && tags'[k] == tags[k] && k in held' && (k in held ==> held'[k] == held[k])
    requires forall k | k in tags' && k != id && tags[k] in registered ::
      tags[k] in registered' && registered'[tags[k]] == registered[tags[k]]
    requires id in tags' ==> id in held' && tags'[id] in registered' && registered'[tags'[id]] == held'[id]
    ensures Leads(tags', held', registered')
  {
  }

  /** The inbounds agree on these tags. */
  ghost predicate Same(tags: map<int, string>, before: set<string>, after: set<string>) {
    forall k | k in tags :: tags[k] in after <==> tags[k] in before
  }

  lemma SameSelf(tags: map<int, string>, b: set<string>)
    ensures Same(tags, b, b)
  {
  }

  lemma SameOn(tags: map<int, string>, before: set<string>, after: set<string>)
    requires Same(tags, before, after)
    ensures forall k | k in tags :: tags[k] in after <==> tags[k] in before
  {
  }

  lemma SameStep(t0: map<int, string>, b0: set<string>, b1: set<string>, t1: map<int, string>, b2: set<string>,
      t: map<int, string>)
    requires Same(t0, b0, b1) && Same(t1, b1, b2)
    requires forall k | k in t :: k in t0 && t0[k] == t[k] && k in t1 && t1[k] == t[k]
    ensures Same(t, b0, b2)
  {
  }

  lemma ServesMore(tags: map<int, string>, inbounds: set<string>, limiters: set<string>, more: set<string>)
    requires Serves(tags, inbounds, limiters) && limiters <= more
    ensures Serves(tags, inbounds, more)
  {
  }

  lemma ServesHas(tags: map<int, string>, inbounds: set<string>, limiters: set<string>, id: int)
    requires Serves(tags, inbounds, limiters) && id in tags
    ensures tags[id] in inbounds && tags[id] in limiters
    ensures inbounds - {tags[id]} + {tags[id]} == inbounds && limiters - {tags[id]} + {tags[id]} == limiters
  {
    assert tags[id] in TagSet(tags);
  }

  /** The node `id` gets another tag. */
  lemma TagReplaced(tags: map<int, string>, inbounds: set<string>, limiters: set<string>, id: int, tag: string)
    requires id in tags && forall k | k in tags && k != id :: tags[k] != tags[id] && tags[k] != tag
    requires Serves(tags, inbounds, limiters)
    ensures Serves(tags[id := tag], inbounds - {tags[id]} + {tag}, limiters - {tags[id]} + {tag})
  {
    TagRemoved(tags, inbounds, limiters, id);
    TagAdded(tags - {id}, inbounds - {tags[id]}, limiters - {tags[id]}, id, tag);
    assert (tags - {id})[id := tag] == tags[id := tag];
    hide Serves, TagSet;
  }

  /** ... and no inbound. */
  lemma TagMissing(tags: map<int, string>, inbounds: set<string>, limiters: set<string>, limiters': set<string>,
      id: int, tag: string)
    requires id in tags && forall k | k in tags && k != id :: tags[k] != tag
    requires Serves(tags, inbounds, limiters)
    ensures !Serves(tags[id := tag], inbounds - {tags[id]}, limiters')
  {
    var t := tags[id := tag];
    assert t[id] in TagSet(t);
    if tag in TagSet(tags) {
      var k :| k in tags && tags[k] == tag;
    }
  }

  lemma TagAdded(tags: map<int, string>, inbounds: set<string>, limiters: set<string>, id: int, tag: string)
    requires id !in tags && forall k | k in tags && k != id :: tags[k] != tag
    ensures Serves(tags, inbounds, limiters) ==> Serves(tags[id := tag], inbounds + {tag}, limiters + {tag})
    ensures Serves(tags, inbounds, limiters) ==> Serves(tags, inbounds, limiters + {tag})
    ensures Serves(tags, inbounds, limiters) ==> !Serves(tags, inbounds + {tag}, limiters + {tag})
    ensures Same(tags, inbounds, inbounds + {tag}) && Same(tags, inbounds, inbounds)
  {
    var more := tags[id := tag];
    assert TagSet(more) == TagSet(tags) + {tag} by {
      assert more[id] == tag;
      forall t | t in TagSet(tags) ensures t in TagSet(more) {
        var k :| k in tags && tags[k] == t;
        assert more[k] == t;
      }
    }
  }

  lemma TagRemoved(tags: map<int, string>, inbounds: set<string>, limiters: set<string>, id: int)
    requires id in tags && forall k | k in tags && k != id :: tags[k] != tags[id]
    ensures Serves(tags, inbounds, limiters) ==>
      tags[id] in inbounds && Serves(tags - {id}, inbounds - {tags[id]}, limiters - {tags[id]})
    ensures Same(tags - {id}, inbounds, inbounds - {tags[id]})
  {
    var less := tags - {id};
    assert TagSet(less) == TagSet(tags) - {tags[id]} by {
      forall t | t in TagSet(tags) && t != tags[id] ensures t in TagSet(less) {
        var k :| k in tags && tags[k] == t;
        assert less[k] == t;
      }
    }
  }

  lemma Attempts(nodes: seq<int>, replies: seq<StartReply>, live: set<int>, i: nat)
    requires i < |nodes| == |replies|
    ensures Attempted(nodes, replies, live, i) <==> nodes[i] !in live && nodes[i] !in Startable(nodes, replies, live, i)
    ensures Startable(nodes, replies, live, i + 1) ==
      Startable(nodes, replies, live, i) + if nodes[i] !in live && replies[i].Succeeds() then {nodes[i]} else {}
    ensures SomeFails(nodes, replies, live, i + 1) <==>
      SomeFails(nodes, replies, live, i) || (Attempted(nodes, replies, live, i) && !replies[i].Succeeds())
    ensures SomeFails(nodes, replies, live, i + 1) ==> SomeFails(nodes, replies, live, |nodes|)
  {
  }

  lemma NotLate(replies: seq<StartReply>, i: nat)
    requires i < |replies|
    ensures NoneLate(replies) && replies[i].Creates() ==> replies[i].accepted
  {
  }

  /** The nodes of `started` have come to the tags since `tags0`, and are served; nothing else has changed. */
  ghost predicate Grown(tags0: map<int, string>, inbounds0: set<string>, tags: map<int, string>,
      inbounds: set<string>, started: seq<int>) {
    && Distinct(started) && IdsOf(started) !! tags0.Keys && tags.Keys == tags0.Keys + IdsOf(started)
    && (forall k | k in tags0 :: tags[k] == tags0[k])
    && (forall k | 0 <= k < |started| :: tags[started[k]] in inbounds)
    && Same(tags0, inbounds0, inbounds)
  }

  lemma GrownStart(tags: map<int, string>, inbounds: set<string>)
    ensures Grown(tags, inbounds, tags, inbounds, [])
  {
  }

  /** A start that fails, and one that does not. */
  lemma GrownStep(tags0: map<int, string>, inbounds0: set<string>, tags: map<int, string>, inbounds: set<string>,
                  started: seq<int>, after: set<string>, id: int, tag: string)
    requires Grown(tags0, inbounds0, tags, inbounds, started) && Same(tags, inbounds, after) && id !in tags
    ensures Grown(tags0, inbounds0, tags, after, started)
    ensures tag in after ==> Grown(tags0, inbounds0, tags[id := tag], after, started + [id])
  {
  }

  lemma GrownMeans(tags0: map<int, string>, inbounds0: set<string>, tags: map<int, string>, inbounds: set<string>,
      started: seq<int>)
    requires Grown(tags0, inbounds0, tags, inbounds, started)
    ensures Distinct(started) && forall k | 0 <= k < |started| :: started[k] in tags && tags[started[k]] in inbounds
    ensures tags - IdsOf(started) == tags0 && Same(tags0, inbounds0, inbounds)
    ensures IdsOf(started) == tags.Keys - tags0.Keys
    ensures forall k | k in tags0 :: k in tags && tags[k] == tags0[k]
  {
    var less := tags - IdsOf(started);
    assert less.Keys == tags0.Keys;
    assert forall k | k in tags0 :: less[k] == tags0[k];
  }

  ghost predicate Joins(all: map<int, Controller>, base: map<int, Controller>, begun: map<int, Controller>) {
    base.Keys !! begun.Keys && all == base + begun
  }

  lemma JoinsStep(all: map<int, Controller>, base: map<int, Controller>, begun: map<int, Controller>, id: int,
      c: Controller)
    requires Joins(all, base, begun) && id !in all
    ensures Joins(all[id := c], base, begun[id := c])
  {
  }

  lemma JoinsMeans(all: map<int, Controller>, base: map<int, Controller>, begun: map<int, Controller>)
    requires Joins(all, base, begun)
    ensures begun.Keys == all.Keys - base.Keys && begun.Keys !! base.Keys && all == base + begun
    ensures all - begun.Keys == base
    ensures all.Keys == base.Keys + begun.Keys
    ensures forall id | id in begun :: id in all && all[id] == begun[id]
  {
  }

  /** The first loop of syncNodes after n turns: `begun` has joined the table, and `fails` tells whether a
      start failed. */
  ghost predicate Progress(nodes: seq<int>, replies: seq<StartReply>, n: nat, all: map<int, Controller>,
                           base: map<int, Controller>, begun: map<int, Controller>, fails: bool) {
    && n <= |nodes| == |replies| && Joins(all, base, begun)
    && begun.Keys == Startable(nodes, replies, base.Keys, n)
    && fails == SomeFails(nodes, replies, base.Keys, n)
  }

  lemma ProgressStart(nodes: seq<int>, replies: seq<StartReply>, base: map<int, Controller>)
    requires |nodes| == |replies|
    ensures Progress(nodes, replies, 0, base, base, map[], false)
  {
  }

  lemma ProgressTurn(nodes: seq<int>, replies: seq<StartReply>, i: nat, all: map<int, Controller>,
                     base: map<int, Controller>, begun: map<int, Controller>, fails: bool, c: Controller)
    requires i < |nodes| && Progress(nodes, replies, i, all, base, begun, fails)
    ensures nodes[i] in all ==> Progress(nodes, replies, i + 1, all, base, begun, fails)
    ensures nodes[i] !in all && !replies[i].Succeeds() ==> Progress(nodes, replies, i + 1, all, base, begun, true)
    ensures nodes[i] !in all && replies[i].Succeeds() ==>
      Progress(nodes, replies, i + 1, all[nodes[i] := c], base, begun[nodes[i] := c], fails)
  {
    Attempts(nodes, replies, base.Keys, i);
    if nodes[i] !in all {
      JoinsStep(all, base, begun, nodes[i], c);
    }
    JoinsMeans(all, base, begun);
    hide Startable, SomeFails, Attempted, Joins;
  }

  lemma ProgressMeans(nodes: seq<int>, replies: seq<StartReply>, n: nat, all: map<int, Controller>,
                      base: map<int, Controller>, begun: map<int, Controller>, fails: bool)
    requires Progress(nodes, replies, n, all, base, begun, fails)
    ensures n <= |nodes| == |replies| && Joins(all, base, begun)
    ensures fails ==> SomeFails(nodes, replies, base.Keys, |nodes|)
    ensures n == |nodes| ==> begun.Keys == Startable(nodes, replies, base.Keys, n)
    ensures n == |nodes| ==> fails == SomeFails(nodes, replies, base.Keys, n)
  {
  }

  lemma ProgressStops(nodes: seq<int>, replies: seq<StartReply>, i: nat, all: map<int, Controller>,
                      base: map<int, Controller>, begun: map<int, Controller>)
    requires i < |nodes| && Progress(nodes, replies, i, all, base, begun, false) && nodes[i] !in all
    ensures !replies[i].Succeeds() ==> FailsFirst(nodes, replies, base.Keys, i)
    ensures !replies[i].Succeeds() ==>
      Startable(nodes, replies, base.Keys, i + 1) == Startable(nodes, replies, base.Keys, i)
  {
    Attempts(nodes, replies, base.Keys, i);
    hide Startable, SomeFails, Attempted;
  }

  /** The state on entry to an operation. */
  datatype Entry = Entry(controllers: map<int, Controller>, tags: map<int, string>, inbounds: set<string>,
                         limiters: set<object?>, closes: map<int, nat>, exact: bool)

  /** Limiters and controllers after some steps are the ones before or were born in them. */
  ghost predicate Adds(limiters: set<object?>, held: set<Controller>, limiters': set<object?>, held': set<Controller>,
      born: set<object?>) {
    limiters' <= limiters + born && held' <= held + born
  }

  lemma AddsMeans(limiters: set<object?>, held: set<Controller>, limiters': set<object?>, held': set<Controller>,
      born: set<object?>)
    ensures Adds(limiters, held, limiters', held', born) <==> limiters' <= limiters + born && held' <= held + born
  {
  }

  lemma AddsStep(l0: set<object?>, h0: set<Controller>, l1: set<object?>, h1: set<Controller>, b1: set<object?>,
                 l2: set<object?>, h2: set<Controller>, b2: set<object?>)
    requires Adds(l0, h0, l1, h1, b1) && Adds(l1, h1, l2, h2, b2)
    ensures Adds(l0, h0, l2, h2, b1 + b2)
  {
  }

  /** Taking the nodes of `gone` out of `mid` leads back to `entry`. */
  ghost predicate Undoes(mid: Entry, gone: set<int>, entry: Entry, begun: map<int, Controller>, born: set<object?>,
      exact: bool) {
    && mid.controllers - gone == entry.controllers && mid.tags - gone == entry.tags
    && mid.controllers.Keys == mid.closes.Keys && gone == begun.Keys && begun.Keys !! entry.controllers.Keys
    && (forall k | k in begun :: k in mid.controllers && mid.controllers[k] == begun[k] && mid.closes[k] == 0)
    && mid.limiters <= entry.limiters + born && begun.Values <= born
    && Same(entry.tags, entry.inbounds, mid.inbounds)
    && (entry.exact && exact ==> mid.exact)
  }

  ghost predicate NotShared(all: map<int, Controller>) {
    forall i, j | i in all && j in all && all[i] == all[j] :: i == j
  }

  ghost function Closes(all: map<int, Controller>): map<int, nat>
    reads all.Values`closes
  {
    map id | id in all :: all[id].closes
  }

  lemma ClosesAre(all: map<int, Controller>)
    ensures Closes(all).Keys == all.Keys && forall id | id in all :: Closes(all)[id] == all[id].closes
  {
  }

  lemma SyncDrops(nodes: seq<int>, replies: seq<StartReply>, base: map<int, Controller>, begun: map<int, Controller>)
    requires |nodes| == |replies| && begun.Keys !! base.Keys
    requires begun.Keys == Startable(nodes, replies, base.Keys, |nodes|)
    ensures forall k :: k in IdsOf(nodes) <==> k in nodes
    ensures begun.Keys <= IdsOf(nodes)
    ensures forall k | k in begun :: k in nodes && k in base + begun && (base + begun)[k] == begun[k]
    ensures forall k | k in base :: k in base + begun && (base + begun)[k] == base[k]
    ensures (base + begun).Values <= base.Values + begun.Values && (base + begun).Keys == base.Keys + begun.Keys
  {
  }

  /** Of the nodes not to be kept, those of `gone` had their inbound and are dropped.  All are, unless dropping
      ends at one that had lost it, `stuck`. */
  ghost predicate Drops(tags: map<int, string>, inbounds: set<string>, keep: set<int>, ok: bool,
      gone: set<int>, stuck: set<int>) {
    && gone !! stuck && gone + stuck <= tags.Keys - keep
    && (if ok then stuck == {} && gone == tags.Keys - keep else |stuck| == 1)
    && (forall k | k in gone :: tags[k] in inbounds) && (forall k | k in stuck :: tags[k] !in inbounds)
  }

  /** Since `closes` was taken, the controllers of these nodes have been closed once and no others. */
  ghost predicate ClosedSince(all: map<int, Controller>, closes: map<int, nat>, which: set<int>)
    reads all.Values`closes
  {
    all.Keys == closes.Keys && forall k | k in all :: all[k].closes == closes[k] + if k in which then 1 else 0
  }

  lemma ClosedOneMore(all: map<int, Controller>, closes: map<int, nat>, mid: map<int, nat>, which: set<int>, id: int)
    requires all.Keys == closes.Keys == mid.Keys && id in all && id !in which
    requires forall k | k in all :: mid[k] == closes[k] + if k in which then 1 else 0
    requires forall k | k in all :: all[k].closes == mid[k] + if k == id then 1 else 0
    ensures ClosedSince(all, closes, which + {id})
  {
  }

  lemma CountsNow(all: map<int, Controller>, closes: map<int, nat>, which: set<int>, id: int)
    requires NotShared(all) && ClosedSince(all, closes, which) && id in all
    ensures Closes(all).Keys == closes.Keys == all.Keys
    ensures forall k | k in all :: Closes(all)[k] == all[k].closes == closes[k] + if k in which then 1 else 0
    ensures forall k | k in all && k != id :: all[k] != all[id]
  {
  }

  /** What is dropped of the table after the starts is dropped of the table before them. */
  lemma DropsLift(tags: map<int, string>, inbounds: set<string>, tags': map<int, string>, inbounds': set<string>,
      base: set<int>, begun: set<int>, keep: set<int>, ok: bool, gone: set<int>, stuck: set<int>)
    requires Drops(tags', inbounds', keep, ok, gone, stuck) && Same(tags, inbounds, inbounds')
    requires tags.Keys == base && tags'.Keys == base + begun && begun <= keep
    requires forall k | k in tags :: tags'[k] == tags[k]
    ensures Drops(tags, inbounds, keep, ok, gone, stuck) && gone + stuck <= base - keep
    ensures ok ==> gone == base - keep
  {
    assert base + begun - keep == base - keep;
  }

  lemma SyncJoins(base: map<int, Controller>, begun: map<int, Controller>, gone: set<int>, stuck: set<int>,
      keep: set<int>)
    requires begun.Keys !! base.Keys && begun.Keys <= keep && gone + stuck <= base.Keys - keep
    ensures (base + begun) - gone == (base - gone) + begun && forall k | k in begun :: k !in gone + stuck
  {
  }

  lemma StillClosed(base: map<int, Controller>, begun: map<int, Controller>, closes: map<int, nat>,
      closes': map<int, nat>)
    requires begun.Keys !! base.Keys && Closed(begun, 0) && ClosedSince(base, closes, {})
    requires closes'.Keys == (base + begun).Keys
    requires forall k | k in base + begun :: closes'[k] == (base + begun)[k].closes
    ensures closes.Keys == base.Keys && closes'.Keys == base.Keys + begun.Keys
    ensures forall k | k in base :: closes'[k] == closes[k]
    ensures forall k | k in begun :: closes'[k] == 0
  {
    assert forall k | k in base :: (base + begun)[k] == base[k];
    assert forall k | k in begun :: (base + begun)[k] == begun[k];
  }

  lemma ClosesLift(base: map<int, Controller>, begun: map<int, Controller>, closes: map<int, nat>,
      closes': map<int, nat>, which: set<int>)
    requires begun.Keys !! base.Keys && ClosedSince(base + begun, closes', which)
    requires closes.Keys == base.Keys && closes'.Keys == base.Keys + begun.Keys
    requires forall k | k in base :: closes'[k] == closes[k]
    requires forall k | k in begun :: k !in which && closes'[k] == 0
    ensures ClosedSince(base, closes, which) && Closed(begun, 0)
  {
    assert forall k | k in base :: (base + begun)[k] == base[k];
    assert forall k | k in begun :: (base + begun)[k] == begun[k];
  }

  lemma AllStarted(nodes: seq<int>, replies: seq<StartReply>, base: map<int, Controller>, begun: map<int, Controller>)
    requires |nodes| == |replies|
    ensures begun.Keys == Startable(nodes, replies, base.Keys, |nodes|) ==>
      || SomeFails(nodes, replies, base.Keys, |nodes|)
      || ((base - (base.Keys - IdsOf(nodes))) + begun).Keys == IdsOf(nodes)
  {
    forall i | 0 <= i < |nodes| && nodes[i] !in base && !SomeFails(nodes, replies, base.Keys, |nodes|)
      ensures nodes[i] in Startable(nodes, replies, base.Keys, |nodes|)
    {
      assert replies[i].Succeeds() || !Attempted(nodes, replies, base.Keys, i);
    }
  }

  lemma SyncTags(tags: map<int, string>, inbounds: set<string>, tags': map<int, string>, inbounds': set<string>,
      nodes: seq<int>)
    requires forall k | k in tags :: k in tags' && tags'[k] == tags[k]
    requires forall k | k in tags' && k !in tags :: k in nodes
    requires Same(tags, inbounds, inbounds')
    ensures (forall k | k in tags' && k !in IdsOf(nodes) :: tags'[k] in inbounds') <==>
      !exists k | k in tags && k !in nodes :: tags[k] !in inbounds
  {
  }

  lemma FewerHeld(all: map<int, Controller>, gone: set<int>)
    ensures (all - gone).Values <= all.Values
  {
  }

  /** Of `all` the nodes of `todo` are still to be looked at; those of `gone` were not to be kept. */
  ghost predicate Cleared(all: set<int>, todo: set<int>, keep: set<int>, gone: set<int>) {
    todo <= all && gone == all - todo - keep
  }

  lemma ClearedNone(all: set<int>, keep: set<int>)
    ensures Cleared(all, all, keep, {})
  {
  }

  lemma Visited(all: set<int>, todo: set<int>, keep: set<int>, gone: set<int>, id: int)
    requires id in todo && Cleared(all, todo, keep, gone)
    ensures id in all && id !in gone && gone !! keep
    ensures Cleared(all, todo - {id}, keep, if id in keep then gone else gone + {id})
  {
  }

  lemma ClearedAll(all: set<int>, todo: set<int>, keep: set<int>, gone: set<int>)
    requires Cleared(all, todo, keep, gone) && forall id :: id !in todo
    ensures gone == all - keep
  {
    assert forall k | k in all && k !in keep :: k in gone;
    assert forall k | k in gone :: k in all && k !in keep;
  }

  /** Each of these controllers has been closed n times. */
  ghost predicate Closed(begun: map<int, Controller>, n: nat)
    reads begun.Values`closes
  {
    forall id | id in begun :: begun[id].closes == n
  }

  lemma ClosedMeans(begun: map<int, Controller>, n: nat)
    ensures Closed(begun, n) <==> forall id | id in begun :: begun[id].closes == n
  {
  }

  lemma ClosedMore(begun: map<int, Controller>, n: nat, id: int, c: Controller)
    requires Closed(begun, n) && c.closes == n
    ensures Closed(begun[id := c], n) && begun[id := c].Values <= begun.Values + {c}
  {
  }

  lemma WholeIds(order: seq<int>)
    ensures IdsOf(order[..0]) == {} && order[..|order|] == order
  {
  }
}
