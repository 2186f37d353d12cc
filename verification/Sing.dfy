/** The proxy core as the node sees it (core/sing): inbounds by tag with their users, the uid of every
    uuid, and the traffic counters of every tag. */
module Sing {
  import opened Formats

  /** The two counters of a user; connections keep a reference to them. */
  class TrafficStorage {
    var up: int
    var down: int

    constructor ()
      ensures up == 0 && down == 0
    {
      up, down := 0, 0;
    }
  }

  datatype Amount = Amount(up: int, down: int) {
    function Plus(that: Amount): Amount {
      Amount(up + that.up, down + that.down)
    }
  }

  const ZERO: Amount := Amount(0, 0)

  datatype UserTraffic = UserTraffic(uid: int, upload: int, download: int)

  function UidOf(uidMap: map<string, int>, uuid: string): int {
    if uuid in uidMap then uidMap[uuid] else 0
  }

  // ---- GetUserTrafficSlice as a function of the counters ----

  predicate Reports(a: Amount, min: int) {
    a.up + a.down > min
  }

  /** Above the threshold, and of no known user: the counters are zeroed and the entry is deleted. */
  predicate Drops(uidMap: map<string, int>, min: int, c: map<string, Amount>, uuid: string)
    requires uuid in c
  {
    Reports(c[uuid], min) && UidOf(uidMap, uuid) == 0
  }

  /** The counters after the slice, with the entries of `todo` still to be looked at. */
  function SliceRest(uidMap: map<string, int>, min: int, reset: bool, c: map<string, Amount>,
      todo: set<string>): map<string, Amount> {
    map u | u in c && (u in todo || !Drops(uidMap, min, c, u)) ::
      if u !in todo && reset && Reports(c[u], min) then ZERO else c[u]
  }

  function RowsFor(uidMap: map<string, int>, min: int, c: map<string, Amount>, u: string): seq<UserTraffic>
    requires u in c
  {
    if Reports(c[u], min) && UidOf(uidMap, u) != 0 then [UserTraffic(UidOf(uidMap, u), c[u].up, c[u].down)] else []
  }

  /** The rows of the slice when the entries are visited in this order. */
  function SliceRows(uidMap: map<string, int>, min: int, c: map<string, Amount>, order: seq<string>): seq<UserTraffic>
    requires forall u | u in order :: u in c
  {
    if order == [] then []
    else SliceRows(uidMap, min, c, order[..|order| - 1]) + RowsFor(uidMap, min, c, order[|order| - 1])
  }

  ghost predicate Enumerates(order: seq<string>, keys: set<string>) {
    && (forall u :: u in order <==> u in keys)
    && (forall i, j | 0 <= i < j < |order| :: order[i] != order[j])
  }

  /** The rows of some slice; the order is that of a map iteration. */
  ghost predicate IsSlice(uidMap: map<string, int>, min: int, c: map<string, Amount>, rows: seq<UserTraffic>) {
    exists order :: Enumerates(order, c.Keys) && rows == SliceRows(uidMap, min, c, order)
  }

  function Visited(uidMap: map<string, int>, min: int, reset: bool, c: map<string, Amount>,
      u: string): map<string, Amount>
    requires u in c
  {
    if Drops(uidMap, min, c, u) then c - {u}
    else if reset && Reports(c[u], min) then c[u := ZERO] else c
  }

  /** The slice of `c` with the entries of `todo` still to come. */
  ghost predicate Sliced(uidMap: map<string, int>, min: int, reset: bool, c: map<string, Amount>, todo: set<string>,
      order: seq<string>, rows: seq<UserTraffic>, current: map<string, Amount>)
  {
    && Enumerates(order, c.Keys - todo)
    && rows == SliceRows(uidMap, min, c, order)
    && current == SliceRest(uidMap, min, reset, c, todo)
  }

  lemma SliceStart(uidMap: map<string, int>, min: int, reset: bool, c: map<string, Amount>)
    ensures Sliced(uidMap, min, reset, c, c.Keys, [], [], c)
  {
    SliceRestAll(uidMap, min, reset, c);
  }

  lemma SliceStep(uidMap: map<string, int>, min: int, reset: bool, c: map<string, Amount>, todo: set<string>,
      order: seq<string>, rows: seq<UserTraffic>, current: map<string, Amount>, u: string)
    requires Sliced(uidMap, min, reset, c, todo, order, rows, current) && u in todo && u in c
    ensures u in current
    ensures Sliced(uidMap, min, reset, c, todo - {u}, order + [u], rows + RowsFor(uidMap, min, current, u),
                   Visited(uidMap, min, reset, current, u))
  {
    hide SliceRest, Visited, Drops, Reports, UidOf;
    assert c.Keys - (todo - {u}) == c.Keys - todo + {u};
    assert (order + [u])[..|order|] == order;
    SliceRestOne(uidMap, min, reset, c, todo, u);
  }

  lemma SliceEnd(uidMap: map<string, int>, min: int, reset: bool, c: map<string, Amount>,
      order: seq<string>, rows: seq<UserTraffic>, current: map<string, Amount>)
    requires Sliced(uidMap, min, reset, c, {}, order, rows, current)
    ensures IsSlice(uidMap, min, c, rows) && current == SliceRest(uidMap, min, reset, c, {})
  {
    assert c.Keys - {} == c.Keys;
  }

  lemma SliceOfNone(uidMap: map<string, int>, min: int, reset: bool)
    ensures IsSlice(uidMap, min, map[], []) && SliceRest(uidMap, min, reset, map[], {}) == map[]
  {
    var c: map<string, Amount> := map[];
    assert Enumerates([], c.Keys) && SliceRows(uidMap, min, c, []) == [];
  }

  lemma SliceRestOne(uidMap: map<string, int>, min: int, reset: bool, c: map<string, Amount>, todo: set<string>,
      u: string)
    requires u in c && u in todo
    ensures var r := SliceRest(uidMap, min, reset, c, todo);
            u in r && r[u] == c[u] && SliceRest(uidMap, min, reset, c, todo - {u}) == Visited(uidMap, min, reset, r, u)
  {
  }

  lemma SliceRestAll(uidMap: map<string, int>, min: int, reset: bool, c: map<string, Amount>)
    ensures SliceRest(uidMap, min, reset, c, c.Keys) == c
  {
  }

  /** The users of the rows, in their order. */
  ghost predicate Names(uidMap: map<string, int>, min: int, c: map<string, Amount>, rows: seq<UserTraffic>,
      named: seq<string>) {
    && |named| == |rows|
    && (forall i | 0 <= i < |named| :: named[i] in c && named[i] in uidMap
          && rows[i] == UserTraffic(uidMap[named[i]], c[named[i]].up, c[named[i]].down))
    && (forall i, j | 0 <= i < j < |named| :: named[i] != named[j])
    && (forall u :: u in named <==> u in c && u in uidMap && uidMap[u] != 0 && c[u].up + c[u].down > min)
  }

  /** What a slice leaves of the counters. */
  ghost predicate SliceKeeps(uidMap: map<string, int>, min: int, reset: bool, c: map<string, Amount>,
      rest: map<string, Amount>) {
    && rest.Keys <= c.Keys
    && (forall u | u in c && c[u].up + c[u].down <= min :: u in rest && rest[u] == c[u])
    && (forall u | u in c && c[u].up + c[u].down > min ::
          if u in uidMap && uidMap[u] != 0 then u in rest && rest[u] == (if reset then Amount(0, 0) else c[u])
          else u !in rest)
  }

  lemma SliceLeaves(uidMap: map<string, int>, min: int, reset: bool, c: map<string, Amount>)
    ensures SliceKeeps(uidMap, min, reset, c, SliceRest(uidMap, min, reset, c, {}))
  {
  }

  lemma RowMeans(uidMap: map<string, int>, min: int, c: map<string, Amount>, u: string)
    requires u in c
    ensures RowsFor(uidMap, min, c, u) == if u in uidMap && uidMap[u] != 0 && c[u].up + c[u].down > min
      then [UserTraffic(uidMap[u], c[u].up, c[u].down)] else []
  {
  }

  lemma {:induction false} RowNames(uidMap: map<string, int>, min: int, c: map<string, Amount>, order: seq<string>)
    returns (named: seq<string>)
    requires forall u | u in order :: u in c
    requires forall i, j | 0 <= i < j < |order| :: order[i] != order[j]
    ensures var rows := SliceRows(uidMap, min, c, order);
            && |named| == |rows|
            && (forall i | 0 <= i < |named| :: named[i] in c && named[i] in uidMap
                  && rows[i] == UserTraffic(uidMap[named[i]], c[named[i]].up, c[named[i]].down))
    ensures forall i, j | 0 <= i < j < |named| :: named[i] != named[j]
    ensures forall u :: u in named <==> u in order && u in uidMap && uidMap[u] != 0 && c[u].up + c[u].down > min
  {
    hide RowsFor;
    named := [];
    if order != [] {
      var init, u := order[..|order| - 1], order[|order| - 1];
      assert order == init + [u];
      named := RowNames(uidMap, min, c, init);
      RowMeans(uidMap, min, c, u);
      if u in uidMap && uidMap[u] != 0 && c[u].up + c[u].down > min {
        named := named + [u];
      }
    }
  }

  lemma SliceNames(uidMap: map<string, int>, min: int, c: map<string, Amount>, rows: seq<UserTraffic>)
    returns (named: seq<string>)
    requires IsSlice(uidMap, min, c, rows)
    ensures Names(uidMap, min, c, rows, named)
  {
    hide SliceRows;
    var order :| Enumerates(order, c.Keys) && rows == SliceRows(uidMap, min, c, order);
    named := RowNames(uidMap, min, c, order);
  }

  // ---- The class ----

  class Sing {
    var inbounds: map<string, set<string>>
    var uidMap: map<string, int>
    var counters: map<string, map<string, TrafficStorage>>
    var nodeReportMinTrafficBytes: map<string, int>

    /** No two entries share their counters. */
    ghost predicate Valid()
      reads this`counters
    {
      forall t, u, t', u' | t in counters && u in counters[t] && t' in counters && u' in counters[t'] &&
        counters[t][u] == counters[t'][u'] :: t == t' && u == u'
    }

    constructor ()
      ensures Valid() && inbounds == map[] && uidMap == map[] && counters == map[]
    {
      inbounds, uidMap, counters, nodeReportMinTrafficBytes := map[], map[], map[], map[];
    }

    ghost function Storages(tag: string): set<TrafficStorage>
      reads this
    {
      if tag in counters then counters[tag].Values else {}
    }

    /** What the counters of a tag show. */
    ghost function Contents(tag: string): map<string, Amount>
      reads this, Storages(tag)
    {
      if tag in counters then
        map u | u in counters[tag] :: Amount(counters[tag][u].up, counters[tag][u].down)
      else map[]
    }

    function MinTraffic(tag: string): int
      reads this`nodeReportMinTrafficBytes
    {
      if tag in nodeReportMinTrafficBytes then nodeReportMinTrafficBytes[tag] else 0
    }

    /** The inbound takes the place of one with the same tag. `created` is whether it can be set up. */
    method AddNode(tag: string, reportMinTraffic: int, created: bool) returns (ok: bool)
      modifies this`inbounds, this`nodeReportMinTrafficBytes
      ensures ok == created
      ensures inbounds == if ok then old(inbounds)[tag := {}] else old(inbounds)
      ensures nodeReportMinTrafficBytes == old(nodeReportMinTrafficBytes)[tag := reportMinTraffic * 1024]
      ensures MinTraffic(tag) == reportMinTraffic * 1024
    {
      nodeReportMinTrafficBytes := nodeReportMinTrafficBytes[tag := reportMinTraffic * 1024];
      if created {
        inbounds := inbounds[tag := {}];
      }
      return created;
    }

    method DelNode(tag: string) returns (ok: bool)
      modifies this`inbounds
      ensures ok <==> tag in old(inbounds)
      ensures inbounds == old(inbounds) - {tag}
    {
      ok := tag in inbounds;
      inbounds := inbounds - {tag};
    }

    /** `accepted` is whether the inbound takes the users; the uids are entered before it is asked. */
    method AddUsers(tag: string, users: seq<UserInfo>, accepted: bool) returns (ok: bool)
      modifies this`inbounds, this`uidMap
      ensures ok <==> tag in old(inbounds) && accepted
      ensures uidMap == if tag in old(inbounds) then WithUids(old(uidMap), users) else old(uidMap)
      ensures tag in old(inbounds) ==>
        && uidMap.Keys == old(uidMap).Keys + Uuids(users)
        && (forall k | IsLast(users, k) :: uidMap[users[k].uuid] == users[k].id)
        && (forall x | x in old(uidMap) && x !in Uuids(users) :: uidMap[x] == old(uidMap)[x])
      ensures inbounds == if ok then old(inbounds)[tag := old(inbounds)[tag] + Uuids(users)] else old(inbounds)
    {
      if tag !in inbounds {
        return false;
      }
      UidsMean(uidMap, users);
      for i := 0 to |users|
        invariant uidMap == WithUids(old(uidMap), users[..i]) && inbounds == old(inbounds)
      {
        assert users[..i + 1][..i] == users[..i];
        uidMap := uidMap[users[i].uuid := users[i].id];
      }
      assert users[..|users|] == users;
      if accepted {
        inbounds := inbounds[tag := inbounds[tag] + Uuids(users)];
      }
      return accepted;
    }

    /** Likewise for taking users out; their counters go with them. */
    method DelUsers(users: seq<UserInfo>, tag: string, accepted: bool) returns (ok: bool)
      requires Valid()
      modifies this`inbounds, this`uidMap, this`counters
      ensures Valid()
      ensures ok <==> tag in old(inbounds) && accepted
      ensures uidMap == if tag in old(inbounds) then old(uidMap) - Uuids(users) else old(uidMap)
      ensures inbounds == if ok then old(inbounds)[tag := old(inbounds)[tag] - Uuids(users)] else old(inbounds)
      ensures counters == if tag in old(inbounds) && tag in old(counters)
        then old(counters)[tag := old(counters)[tag] - Uuids(users)] else old(counters)
    {
      if tag !in inbounds {
        return false;
      }
      if tag in counters {
        RemoveCounters(users, tag);
      }
      ghost var cut := counters;
      for i := 0 to |users|
        invariant counters == cut && inbounds == old(inbounds)
        invariant uidMap == old(uidMap) - Uuids(users[..i])
      {
        UuidsOne(users, i);
        uidMap := uidMap - {users[i].uuid};
      }
      assert users[..|users|] == users;
      if accepted {
        inbounds := inbounds[tag := inbounds[tag] - Uuids(users)];
      }
      return accepted;
    }

    /** The source deletes a user's counters and uid in the same turn of one loop. */
    method RemoveCounters(users: seq<UserInfo>, tag: string)
      requires Valid() && tag in counters
      modifies this`counters
      ensures Valid() && counters == old(counters)[tag := old(counters)[tag] - Uuids(users)]
    {
      var left := counters[tag];
      assert left - Uuids(users[..0]) == left;
      for i := 0 to |users|
        invariant counters == old(counters) && left == counters[tag] - Uuids(users[..i])
      {
        UuidsOne(users, i);
        left := left - {users[i].uuid};
      }
      assert users[..|users|] == users;
      counters := counters[tag := left];
    }

    /** The counters a new connection of the user counts in (core/sing/hook.go, GetCounter). */
    method GetCounter(tag: string, uuid: string) returns (s: TrafficStorage)
      requires Valid()
      modifies this`counters
      ensures Valid() && tag in counters && uuid in counters[tag] && s == counters[tag][uuid]
      ensures tag in old(counters) && uuid in old(counters)[tag] ==> counters == old(counters)
      ensures !(tag in old(counters) && uuid in old(counters)[tag]) ==> fresh(s) && s.up == s.down == 0
      ensures !(tag in old(counters) && uuid in old(counters)[tag]) ==>
        var c: map<string, TrafficStorage> := if tag in old(counters) then old(counters)[tag] else map[];
        counters == old(counters)[tag := c[uuid := s]]
    {
      var c: map<string, TrafficStorage> := if tag in counters then counters[tag] else map[];
      if uuid in c {
        return c[uuid];
      }
      s := new TrafficStorage();
      counters := counters[tag := c[uuid := s]];
    }

    /** `named` are the users of the rows. */
    method GetUserTrafficSlice(tag: string, reset: bool) returns (rows: seq<UserTraffic>, ghost named: seq<string>)
      requires Valid()
      modifies this`counters, Storages(tag)
      ensures Valid()
      ensures Contents(tag) == SliceRest(uidMap, MinTraffic(tag), reset, old(Contents(tag)), {})
      ensures IsSlice(uidMap, MinTraffic(tag), old(Contents(tag)), rows)
      ensures var min := if tag in nodeReportMinTrafficBytes then nodeReportMinTrafficBytes[tag] else 0;
              && Names(uidMap, min, old(Contents(tag)), rows, named)
              && SliceKeeps(uidMap, min, reset, old(Contents(tag)), Contents(tag))
      ensures forall u | tag in counters && u in counters[tag] ::
        tag in old(counters) && u in old(counters)[tag] && counters[tag][u] == old(counters)[tag][u]
      ensures forall t | t != tag && t in old(counters) :: t in counters && counters[t] == old(counters)[t]
    {
      hide *;
      rows := [];
      ghost var order: seq<string> := [];
      ContentsNone(tag);
      StoragesAre(tag);
      MinTrafficMeans(tag);
      SliceLeaves(uidMap, MinTraffic(tag), reset, Contents(tag));
      if tag !in counters {
        SliceOfNone(uidMap, MinTraffic(tag), reset);
        named := SliceNames(uidMap, MinTraffic(tag), Contents(tag), rows);
        return;
      }
      ghost var c := Contents(tag);
      ContentsKeys(tag);
      var min, visited := MinTraffic(tag), counters[tag];
      var todo := visited.Keys;
      SliceStart(uidMap, min, reset, c);
      while todo != {}
        invariant todo <= visited.Keys && Valid() && tag in counters
        invariant forall t | t != tag && t in old(counters) :: t in counters && counters[t] == old(counters)[t]
        invariant forall u | u in todo :: u in counters[tag]
        invariant forall u | u in counters[tag] :: u in visited && counters[tag][u] == visited[u]
        invariant Sliced(uidMap, min, reset, c, todo, order, rows, Contents(tag))
        decreases |todo|
      {
        var uuid :| uuid in todo;
        ContentsKeys(tag);
        SliceStep(uidMap, min, reset, c, todo, order, rows, Contents(tag), uuid);
        var row := Visit(tag, uuid, reset, min);
        todo := todo - {uuid};
        order := order + [uuid];
        rows := rows + row;
      }
      SliceEnd(uidMap, min, reset, c, order, rows, Contents(tag));
      named := SliceNames(uidMap, min, c, rows);
    }

    lemma MinTrafficMeans(tag: string)
      ensures MinTraffic(tag) == if tag in nodeReportMinTrafficBytes then nodeReportMinTrafficBytes[tag] else 0
    {
    }

    lemma ContentsNone(tag: string)
      ensures tag !in counters ==> Contents(tag) == map[]
    {
    }

    lemma StoragesAre(tag: string)
      ensures tag in counters ==> forall u | u in counters[tag] :: counters[tag][u] in Storages(tag)
    {
    }

    lemma ContentsKeys(tag: string)
      requires tag in counters
      ensures Contents(tag).Keys == counters[tag].Keys
    {
    }

    method Zero(tag: string, uuid: string, traffic: TrafficStorage)
      requires Valid() && tag in counters && uuid in counters[tag] && counters[tag][uuid] == traffic
      modifies traffic
      ensures Contents(tag) == old(Contents(tag))[uuid := ZERO]
    {
      traffic.up := 0;
      traffic.down := 0;
    }

    method Forget(tag: string, uuid: string)
      requires Valid() && tag in counters
      modifies this`counters
      ensures Valid() && counters == old(counters)[tag := old(counters)[tag] - {uuid}]
      ensures Contents(tag) == old(Contents(tag)) - {uuid}
    {
      counters := counters[tag := counters[tag] - {uuid}];
    }

    /** What the slice does with one entry. */
    method Visit(tag: string, uuid: string, reset: bool, min: int) returns (rows: seq<UserTraffic>)
      requires Valid() && tag in counters && uuid in counters[tag]
      modifies this`counters, counters[tag][uuid]
      ensures Valid() && tag in counters
      ensures forall t | t != tag && t in old(counters) :: t in counters && counters[t] == old(counters)[t]
      ensures forall u | u != uuid && u in old(counters)[tag] :: u in counters[tag]
      ensures forall u | u in counters[tag] :: u in old(counters)[tag] && counters[tag][u] == old(counters)[tag][u]
      ensures rows == RowsFor(uidMap, min, old(Contents(tag)), uuid)
      ensures Contents(tag) == Visited(uidMap, min, reset, old(Contents(tag)), uuid)
    {
      hide IsSlice, SliceRest, SliceRows, Enumerates, Valid;
      rows := [];
      var traffic := counters[tag][uuid];
      var up, down := traffic.up, traffic.down;
      if up + down > min {
        if reset {
          Zero(tag, uuid, traffic);
        }
        if UidOf(uidMap, uuid) == 0 {
          Forget(tag, uuid);
          return;
        }
        rows := [UserTraffic(UidOf(uidMap, uuid), up, down)];
      }
    }
  }

  function WithUids(m: map<string, int>, us: seq<UserInfo>): map<string, int> {
    if us == [] then m else WithUids(m, us[..|us| - 1])[us[|us| - 1].uuid := us[|us| - 1].id]
  }

  lemma {:induction false} UidsMean(m: map<string, int>, us: seq<UserInfo>)
    ensures WithUids(m, us).Keys == m.Keys + Uuids(us)
    ensures forall k | IsLast(us, k) :: us[k].uuid in WithUids(m, us) && WithUids(m, us)[us[k].uuid] == us[k].id
    ensures forall x | x in m && x !in Uuids(us) :: WithUids(m, us)[x] == m[x]
  {
    if us != [] {
      var init, last := us[..|us| - 1], us[|us| - 1];
      assert us == init + [last];
      UidsMean(m, init);
      forall k | IsLast(us, k) ensures WithUids(m, us)[us[k].uuid] == us[k].id {
        if k < |init| {
          assert IsLast(init, k) && last.uuid != us[k].uuid;
        }
      }
    }
  }
}
