/** One node over its life: connections, drains, user refreshes and reloads.  All its user tables are
    kept in step with the list it holds, and the bucket cache with the tables. */
module Convergence {
  import opened Formats
  import opened Limiter
  import opened LimiterRuns
  import opened UserDiff
  import opened Sing

  /** What a node holds of its users: the list, the limiter, the inbound's users, the uids. */
  datatype View = View(tag: string, users: seq<UserInfo>, limiter: State, inbound: set<string>,
      uidMap: map<string, int>)

  datatype Event =
    | Limit(e: LimiterRuns.Event)                               // a connection or a drain
    | Keep(alive: Option<map<int, int>>)                        // nothing new but the alive counts
    | Refresh(users: seq<UserInfo>, alive: Option<map<int, int>>)
    | Reload(tag: string, fetched: Option<seq<UserInfo>>, counts: map<int, int>)

  function WithAlive(s: State, alive: Option<map<int, int>>): State {
    if alive.Some? then s.(alive := alive.value) else s
  }

  function Refreshed(v: View, users: seq<UserInfo>, alive: Option<map<int, int>>, deleted: seq<UserInfo>,
      added: seq<UserInfo>): View {
    View(v.tag, users,
         WithUsers(WithoutUsers(WithAlive(v.limiter, alive), v.tag, deleted), v.tag, added),
         v.inbound - Uuids(deleted) + Uuids(added),
         WithUids(v.uidMap - Uuids(deleted), added))
  }

  function Adopted(old': seq<UserInfo>, users: Option<seq<UserInfo>>): seq<UserInfo> {
    if users.Some? then users.value else old'
  }

  function Reloaded(v: View, tag: string, users: Option<seq<UserInfo>>, alive: map<int, int>): View {
    var us := Adopted(v.users, users);
    View(tag, us, WithUsers(Fresh(v.limiter.speedLimit, alive), tag, us), Uuids(us), WithUids(v.uidMap, us))
  }

  ghost predicate Next(v: View, e: Event, v': View) {
    match e
    case Limit(l) =>
      (l.Check? || l.Drain?) && LimiterRuns.Next(v.limiter, l, v'.limiter) && v' == v.(limiter := v'.limiter)
    case Keep(alive) => v' == v.(limiter := WithAlive(v.limiter, alive))
    case Refresh(users, alive) =>
      users != [] &&
      exists deleted, added ::
        IsDiff(v.users, users, deleted, added) && v' == Refreshed(v, users, alive, deleted, added)
    case Reload(tag, users, alive) => v' == Reloaded(v, tag, users, alive)
  }

  lemma RefreshedIsNext(v: View, users: seq<UserInfo>, alive: Option<map<int, int>>, deleted: seq<UserInfo>,
      added: seq<UserInfo>)
    requires users != [] && IsDiff(v.users, users, deleted, added)
    ensures Next(v, Refresh(users, alive), Refreshed(v, users, alive, deleted, added))
  {
    hide IsDiff, Refreshed;
  }

  // ---- What is assumed of the panel ----

  ghost predicate Sound(us: seq<UserInfo>, n: nat) {
    DistinctUuids(us) && UuidLength(us, n)
  }

  ghost predicate KeepsIds(old': seq<UserInfo>, new': seq<UserInfo>) {
    forall u, v | u in old' && v in new' && u.uuid == v.uuid :: u.id == v.id
  }

  ghost predicate SoundEvent(v: View, e: Event, n: nat) {
    match e
    case Refresh(users, alive) => Sound(users, n) && KeepsIds(v.users, users)
    case Reload(tag, users, alive) => users.Some? ==> Sound(users.value, n)
    case _ => true
  }

  // ---- What is kept ----

  /** The table entry is the user's, with the current speed limit and no dynamic one. */
  ghost predicate Entered(l: UserLimit, u: UserInfo) {
    l.uid == u.id && l.speedLimit == u.speedLimit && l.dynamicSpeedLimit == 0 && l.expireTime == 0
  }

  ghost predicate TableHolds(s: State, tag: string, us: seq<UserInfo>) {
    && s.users.Keys == Tags(tag, us)
    && s.uuidToUid.Keys == Uuids(us)
    && forall u | u in us :: UserHeld(s, tag, u)
  }

  ghost predicate UserHeld(s: State, tag: string, u: UserInfo) {
    var t := UserTag(tag, u.uuid);
    t in s.users && Entered(s.users[t], u) && u.uuid in s.uuidToUid && s.uuidToUid[u.uuid] == u.id
  }

  ghost predicate UidsHold(uidMap: map<string, int>, us: seq<UserInfo>) {
    forall u | u in us :: u.uuid in uidMap && uidMap[u.uuid] == u.id
  }

  /** The rate of a user without a dynamic limit. */
  function SteadyRate(nodeLimit: int, speedLimit: int): int {
    Rate(DetermineSpeedLimit(nodeLimit, DetermineSpeedLimit(speedLimit, 0)))
  }

  /** Every cached bucket is a known user's, at the rate of the current limits. */
  ghost predicate Coherent(s: State) {
    forall t | t in s.buckets :: t in s.users && s.buckets[t] == Bucket(SteadyRate(s.speedLimit, s.users[t].speedLimit))
  }

  /** That rate is 125000 bytes a second for each megabit of the least limit that limits at all,
      exactly as long as the arithmetic does not overflow. */
  lemma SteadyRateExactly(nodeLimit: nat, speedLimit: int)
    ensures var least := LeastPositive(nodeLimit, speedLimit);
            SteadyRate(nodeLimit, speedLimit) == 125000 * least <==> least * 1000000 < TWO_TO_THE_63
  {
    RateExactly(LeastPositive(nodeLimit, speedLimit));
  }

  ghost predicate Inv(v: View, n: nat) {
    && Sound(v.users, n)
    && TableHolds(v.limiter, v.tag, v.users)
    && Coherent(v.limiter)
    && v.inbound == Uuids(v.users)
    && UidsHold(v.uidMap, v.users)
  }

  // ---- Fresh tables ----

  lemma {:induction false} WithUidsStores(m: map<string, int>, us: seq<UserInfo>)
    ensures WithUids(m, us).Keys == m.Keys + Uuids(us)
    ensures forall x | x in m && x !in Uuids(us) :: WithUids(m, us)[x] == m[x]
    ensures DistinctUuids(us) ==> UidsHold(WithUids(m, us), us)
  {
    hide *;
    if us == [] {
      WithUidsNone(m);
    } else {
      WithUidsOne(m, us);
      WithUidsStores(m, us[..|us| - 1]);
      UidsHoldOne(WithUids(m, us[..|us| - 1]), us);
    }
  }

  lemma WithUidsNone(m: map<string, int>)
    ensures WithUids(m, []) == m && Uuids([]) == {} && UidsHold(m, [])
  {
  }

  lemma WithUidsOne(m: map<string, int>, us: seq<UserInfo>)
    requires us != []
    ensures var init, last := us[..|us| - 1], us[|us| - 1];
            WithUids(m, us) == WithUids(m, init)[last.uuid := last.id] && Uuids(us) == Uuids(init) + {last.uuid}
  {
    assert us == us[..|us| - 1] + [us[|us| - 1]];
  }

  lemma UidsHoldOne(m: map<string, int>, us: seq<UserInfo>)
    requires us != []
    ensures DistinctUuids(us) ==> DistinctUuids(us[..|us| - 1])
    ensures DistinctUuids(us) && UidsHold(m, us[..|us| - 1]) ==> UidsHold(m[us[|us| - 1].uuid := us[|us| - 1].id], us)
  {
  }

  lemma TableOfUsers(s: State, tag: string, us: seq<UserInfo>, u: UserInfo)
    requires DistinctUuids(us) && u in us
    ensures var r := WithUsers(s, tag, us); var t := UserTag(tag, u.uuid);
            t in r.users && r.users[t] == NewLimit(u) && u.uuid in r.uuidToUid && r.uuidToUid[u.uuid] == u.id
  {
    var k :| 0 <= k < |us| && us[k] == u;
    WithUsersStores(s, tag, us, k);
  }

  lemma FreshTableHolds(s: State, tag: string, us: seq<UserInfo>)
    requires DistinctUuids(us) && s.users == map[] && s.uuidToUid == map[]
    ensures TableHolds(WithUsers(s, tag, us), tag, us)
  {
    hide WithUsers, UserHeld, DistinctUuids;
    WithUsersFields(s, tag, us);
    forall u | u in us ensures UserHeld(WithUsers(s, tag, us), tag, u) {
      TableOfUsers(s, tag, us, u);
      HeldWhenNew(WithUsers(s, tag, us), tag, u);
    }
  }

  lemma HeldWhenNew(s: State, tag: string, u: UserInfo)
    requires var t := UserTag(tag, u.uuid); t in s.users && s.users[t] == NewLimit(u)
    requires u.uuid in s.uuidToUid && s.uuidToUid[u.uuid] == u.id
    ensures UserHeld(s, tag, u)
  {
  }

  lemma ReloadKeepsInv(v: View, tag: string, users: Option<seq<UserInfo>>, alive: map<int, int>, n: nat)
    requires Inv(v, n) && (users.Some? ==> Sound(users.value, n))
    ensures Inv(Reloaded(v, tag, users, alive), n)
  {
    var us := Adopted(v.users, users);
    var s := Fresh(v.limiter.speedLimit, alive);
    FreshTableHolds(s, tag, us);
    WithUsersFields(s, tag, us);
    WithUidsStores(v.uidMap, us);
    hide TableHolds, UidsHold, WithUsers, WithUids, Sound;
  }

  /** A start on sound users is a reload of a node that has none, so it makes the tables agree. */
  lemma StartHolds(tag: string, nodeLimit: int, uidMap: map<string, int>, users: seq<UserInfo>, alive: map<int, int>,
      n: nat)
    requires Sound(users, n)
    ensures var blank := View(tag, [], Fresh(nodeLimit, map[]), {}, uidMap);
            Inv(Reloaded(blank, tag, Some(users), alive), n)
  {
    var blank := View(tag, [], Fresh(nodeLimit, map[]), {}, uidMap);
    assert Inv(blank, n);
    ReloadKeepsInv(blank, tag, Some(users), alive, n);
  }

  // ---- Refreshes ----

  lemma TagsMember(tag: string, us: seq<UserInfo>, uuid: string)
    ensures UserTag(tag, uuid) in Tags(tag, us) <==> uuid in Uuids(us)
  {
    if UserTag(tag, uuid) in Tags(tag, us) {
      var u :| u in us && UserTag(tag, u.uuid) == UserTag(tag, uuid);
      UserTagInjective(tag, u.uuid, uuid);
    }
  }

  /** The users of the new list are the added ones and the old ones that were not deleted. */
  lemma DiffUuids(old': seq<UserInfo>, new': seq<UserInfo>, deleted: seq<UserInfo>, added: seq<UserInfo>, n: nat)
    requires Sound(old', n) && Sound(new', n) && IsDiff(old', new', deleted, added)
    ensures Uuids(old') - Uuids(deleted) + Uuids(added) == Uuids(new')
    ensures forall u | u in added :: u.uuid in Uuids(deleted) || u.uuid !in Uuids(old')
  {
    DiffIsExact(old', new', deleted, added, n);
    forall x | x in Uuids(old') - Uuids(deleted) + Uuids(added) ensures x in Uuids(new') {
      if x !in Uuids(added) {
        var u :| u in old' && u.uuid == x;
        assert u !in deleted;
      }
    }
    forall x | x in Uuids(new') ensures x in Uuids(old') - Uuids(deleted) + Uuids(added) {
      var v :| v in new' && v.uuid == x;
      if v !in added {
        var u := KeptUser(old', new', deleted, added, n, v);
      }
    }
    forall u | u in added ensures u.uuid in Uuids(deleted) || u.uuid !in Uuids(old') {
      if u.uuid in Uuids(old') {
        ChangedUser(old', new', deleted, added, n, u);
      }
    }
  }

  // ---- Who joins and who leaves ----

  /** The node removes the uuid from its list. */
  predicate Leaves(v: View, e: Event, x: string) {
    e.Refresh? && x in Uuids(v.users) && x !in Uuids(e.users)
  }

  /** The node adds it, or adds it again with another speed limit; a reload adds its whole list. */
  ghost predicate Enters(v: View, e: Event, x: string) {
    match e
    case Refresh(users, alive) => exists u | u in users :: u.uuid == x && !UserDiff.Lists(v.users, x, u.speedLimit)
    case Reload(tag, fetched, alive) => x in Uuids(Adopted(v.users, fetched))
    case _ => false
  }

  lemma NotBoth(v: View, e: Event, x: string)
    ensures !(Leaves(v, e, x) && Enters(v, e, x))
  {
  }

  /** What a refresh deletes and adds, by uuid. */
  lemma RefreshUuids(v: View, users: seq<UserInfo>, alive: Option<map<int, int>>, deleted: seq<UserInfo>,
      added: seq<UserInfo>, n: nat, x: string)
    requires Sound(v.users, n) && Sound(users, n) && IsDiff(v.users, users, deleted, added)
    ensures Enters(v, Refresh(users, alive), x) <==> x in Uuids(added)
    ensures Leaves(v, Refresh(users, alive), x) <==> x in Uuids(deleted) && x !in Uuids(added)
    ensures x in Uuids(users) ==> x in Uuids(added) || x in Uuids(v.users)
  {
    hide IsDiff, DistinctUuids, UuidLength;
    DiffIsExact(v.users, users, deleted, added, n);
    DiffUuids(v.users, users, deleted, added, n);
    if x in Uuids(deleted) {
      var d :| d in deleted && d.uuid == x;
    }
    if x in Uuids(added) {
      var a :| a in added && a.uuid == x;
    }
  }

  /** A user that is not added is in the old list with the same limit and is not deleted. */
  lemma KeptUser(old': seq<UserInfo>, new': seq<UserInfo>, deleted: seq<UserInfo>, added: seq<UserInfo>, n: nat,
      v: UserInfo) returns (u: UserInfo)
    requires Sound(old', n) && Sound(new', n) && IsDiff(old', new', deleted, added) && v in new' && v !in added
    ensures u in old' && u.uuid == v.uuid && u.speedLimit == v.speedLimit
    ensures v.uuid !in Uuids(deleted) && v.uuid !in Uuids(added)
  {
    DiffIsExact(old', new', deleted, added, n);
    u :| u in old' && u.uuid == v.uuid && u.speedLimit == v.speedLimit;
    forall d | d in deleted ensures d.uuid != v.uuid {
      SameUser(old', d, u);
    }
    forall a | a in added ensures a.uuid != v.uuid {
      SameUser(new', a, v);
    }
  }

  lemma SameUser(us: seq<UserInfo>, u: UserInfo, v: UserInfo)
    requires DistinctUuids(us) && u in us && v in us
    ensures u.uuid == v.uuid ==> u == v
  {
    var i :| 0 <= i < |us| && us[i] == u;
    var j :| 0 <= j < |us| && us[j] == v;
  }

  lemma ChangedUser(old': seq<UserInfo>, new': seq<UserInfo>, deleted: seq<UserInfo>, added: seq<UserInfo>, n: nat,
      a: UserInfo)
    requires Sound(old', n) && Sound(new', n) && IsDiff(old', new', deleted, added) && a in added
    requires a.uuid in Uuids(old')
    ensures a.uuid in Uuids(deleted)
  {
    DiffIsExact(old', new', deleted, added, n);
    var u :| u in old' && u.uuid == a.uuid;
    forall v | v in new' && v.uuid == u.uuid ensures v.speedLimit != u.speedLimit {
      SameUser(new', v, a);
    }
    assert u in deleted;
  }

  /** Everything a refresh does to the limiter, for one uuid. */
  lemma RefreshEntry(s: State, tag: string, deleted: seq<UserInfo>, added: seq<UserInfo>, v: UserInfo)
    requires DistinctUuids(added) && (v in added || (v.uuid !in Uuids(deleted) && v.uuid !in Uuids(added)))
    requires v !in added ==> UserTag(tag, v.uuid) in s.users && v.uuid in s.uuidToUid
    ensures var r := WithUsers(WithoutUsers(s, tag, deleted), tag, added); var t := UserTag(tag, v.uuid);
            && t in r.users && v.uuid in r.uuidToUid
            && r.users[t] == (if v in added then NewLimit(v) else s.users[t])
            && r.uuidToUid[v.uuid] == (if v in added then v.id else s.uuidToUid[v.uuid])
  {
    var cut := WithoutUsers(s, tag, deleted);
    WithoutUsersFields(s, tag, deleted);
    if v in added {
      TableOfUsers(cut, tag, added, v);
    } else {
      WithUsersFields(cut, tag, added);
      TagsMember(tag, deleted, v.uuid);
      TagsMember(tag, added, v.uuid);
    }
  }

  lemma RefreshedUser(v: View, users: seq<UserInfo>, alive: Option<map<int, int>>, deleted: seq<UserInfo>,
      added: seq<UserInfo>, n: nat, u: UserInfo)
    requires Inv(v, n) && Sound(users, n) && KeepsIds(v.users, users)
    requires IsDiff(v.users, users, deleted, added) && u in users
    ensures var r := Refreshed(v, users, alive, deleted, added);
            UserHeld(r.limiter, v.tag, u) && u.uuid in r.uidMap && r.uidMap[u.uuid] == u.id
  {
    var s := WithAlive(v.limiter, alive);
    DiffIsExact(v.users, users, deleted, added, n);
    WithUidsStores(v.uidMap - Uuids(deleted), added);
    if u !in added {
      var w := KeptUser(v.users, users, deleted, added, n, u);
      assert UserHeld(v.limiter, v.tag, w);
    }
    RefreshEntry(s, v.tag, deleted, added, u);
  }

  lemma RefreshedKeys(v: View, users: seq<UserInfo>, alive: Option<map<int, int>>, deleted: seq<UserInfo>,
      added: seq<UserInfo>, n: nat)
    requires Inv(v, n) && Sound(users, n) && IsDiff(v.users, users, deleted, added)
    ensures var r := Refreshed(v, users, alive, deleted, added);
            && r.limiter.users.Keys == Tags(v.tag, users) && r.limiter.uuidToUid.Keys == Uuids(users)
            && r.inbound == Uuids(users)
  {
    DiffUuids(v.users, users, deleted, added, n);
    var s := WithAlive(v.limiter, alive);
    WithoutUsersFields(s, v.tag, deleted);
    WithUsersFields(WithoutUsers(s, v.tag, deleted), v.tag, added);
    TagsCombine(v.tag, v.users, deleted, added, users);
  }

  lemma TagsCombine(tag: string, old': seq<UserInfo>, deleted: seq<UserInfo>, added: seq<UserInfo>,
      users: seq<UserInfo>)
    requires Uuids(old') - Uuids(deleted) + Uuids(added) == Uuids(users)
    ensures Tags(tag, old') - Tags(tag, deleted) + Tags(tag, added) == Tags(tag, users)
  {
    forall t | t in Tags(tag, old') - Tags(tag, deleted) + Tags(tag, added) ensures t in Tags(tag, users) {
      var u: UserInfo :| (u in old' || u in added) && UserTag(tag, u.uuid) == t;
      TagsMember(tag, old', u.uuid);
      TagsMember(tag, deleted, u.uuid);
      TagsMember(tag, added, u.uuid);
      TagsMember(tag, users, u.uuid);
    }
    forall t | t in Tags(tag, users) ensures t in Tags(tag, old') - Tags(tag, deleted) + Tags(tag, added) {
      var u :| u in users && UserTag(tag, u.uuid) == t;
      assert u.uuid in Uuids(users);
      TagsMember(tag, old', u.uuid);
      TagsMember(tag, deleted, u.uuid);
      TagsMember(tag, added, u.uuid);
    }
  }

  /** A bucket that survives a refresh belongs to a user whose entry survives it too. */
  lemma RefreshKeepsCoherent(v: View, users: seq<UserInfo>, alive: Option<map<int, int>>, deleted: seq<UserInfo>,
      added: seq<UserInfo>, n: nat)
    requires Inv(v, n) && Sound(users, n) && IsDiff(v.users, users, deleted, added)
    ensures Coherent(Refreshed(v, users, alive, deleted, added).limiter)
  {
    var s := WithAlive(v.limiter, alive);
    var cut := WithoutUsers(s, v.tag, deleted);
    WithoutUsersFields(s, v.tag, deleted);
    WithUsersFields(cut, v.tag, added);
    DiffUuids(v.users, users, deleted, added, n);
    forall t | t in cut.buckets ensures t !in Tags(v.tag, added) {
      assert t in Tags(v.tag, v.users);
      var u :| u in v.users && UserTag(v.tag, u.uuid) == t;
      TagsMember(v.tag, added, u.uuid);
      TagsMember(v.tag, deleted, u.uuid);
    }
  }

  lemma RefreshKeepsInv(v: View, users: seq<UserInfo>, alive: Option<map<int, int>>, deleted: seq<UserInfo>,
      added: seq<UserInfo>, n: nat)
    requires Inv(v, n) && Sound(users, n) && KeepsIds(v.users, users) && IsDiff(v.users, users, deleted, added)
    ensures Inv(Refreshed(v, users, alive, deleted, added), n)
  {
    RefreshedKeys(v, users, alive, deleted, added, n);
    RefreshKeepsCoherent(v, users, alive, deleted, added, n);
    var r := Refreshed(v, users, alive, deleted, added);
    forall u | u in users
      ensures UserHeld(r.limiter, v.tag, u) && u.uuid in r.uidMap && r.uidMap[u.uuid] == u.id
    {
      RefreshedUser(v, users, alive, deleted, added, n, u);
    }
  }

  // ---- Connections ----

  lemma NoDynamicLimits(s: State, tag: string, us: seq<UserInfo>, t: string)
    requires TableHolds(s, tag, us) && t in s.users
    ensures s.users[t].dynamicSpeedLimit == 0 && s.users[t].expireTime == 0
  {
    var u :| u in us && UserTag(tag, u.uuid) == t;
    assert UserHeld(s, tag, u);
  }

  lemma CheckKeepsCoherent(s: State, taguuid: string, ip: string, track: bool, now: int)
    requires Coherent(s)
    requires taguuid in s.users ==> s.users[taguuid].dynamicSpeedLimit == 0 && s.users[taguuid].expireTime == 0
    ensures Coherent(Checked(s, taguuid, ip, track, now))
  {
    hide Rejects, OnlineAfter, OldAfter, Rate, DetermineSpeedLimit;
  }

  lemma CheckKeepsInv(v: View, taguuid: string, ip: string, track: bool, now: int, n: nat)
    requires Inv(v, n)
    ensures Inv(v.(limiter := Checked(v.limiter, taguuid, ip, track, now)), n)
  {
    if taguuid in v.limiter.users {
      NoDynamicLimits(v.limiter, v.tag, v.users, taguuid);
    }
    CheckKeepsCoherent(v.limiter, taguuid, ip, track, now);
    CheckKeepsTables(v.limiter, taguuid, ip, track, now);
    hide Checked, Coherent;
  }

  lemma CheckKeepsTables(s: State, taguuid: string, ip: string, track: bool, now: int)
    requires taguuid in s.users ==> s.users[taguuid].expireTime == 0
    ensures var r := Checked(s, taguuid, ip, track, now); r.users == s.users && r.uuidToUid == s.uuidToUid
  {
    hide Rejects, UserRate, OnlineAfter, OldAfter, UsersAfter;
    if taguuid in s.users { NotExpired(s, taguuid, now); }
  }

  lemma NotExpired(s: State, taguuid: string, now: int)
    requires taguuid in s.users && s.users[taguuid].expireTime == 0
    ensures UsersAfter(s, taguuid, now) == s.users
  {
  }

  // ---- Runs ----

  lemma StepKeepsInv(v: View, e: Event, v': View, n: nat)
    requires Next(v, e, v') && Inv(v, n) && SoundEvent(v, e, n)
    ensures Inv(v', n)
  {
    hide Inv;
    match e
    case Limit(l) => LimitKeepsInv(v, l, v', n);
    case Keep(alive) => AliveKeepsInv(v, alive, n);
    case Refresh(users, alive) =>
      var deleted, added :| IsDiff(v.users, users, deleted, added) && v' == Refreshed(v, users, alive, deleted, added);
      RefreshKeepsInv(v, users, alive, deleted, added, n);
    case Reload(tag, users, alive) => ReloadKeepsInv(v, tag, users, alive, n);
  }

  lemma AliveKeepsInv(v: View, alive: Option<map<int, int>>, n: nat)
    requires Inv(v, n)
    ensures Inv(v.(limiter := WithAlive(v.limiter, alive)), n)
  {
  }

  lemma LimitKeepsInv(v: View, l: LimiterRuns.Event, v': View, n: nat)
    requires Inv(v, n) && Next(v, Limit(l), v')
    ensures Inv(v', n)
  {
    match l
    case Check(taguuid, ip, track, now) => CheckKeepsInv(v, taguuid, ip, track, now, n);
    case Drain(rows) =>
  }

  /** The list the node holds after these events. */
  function LastAdopted(users: seq<UserInfo>, es: seq<Event>): seq<UserInfo> {
    if es == [] then users
    else
      var before, last := LastAdopted(users, es[..|es| - 1]), es[|es| - 1];
      match last
      case Refresh(us, alive) => us
      case Reload(tag, us, alive) => Adopted(before, us)
      case _ => before
  }

  ghost predicate IsRun(vs: seq<View>, es: seq<Event>, n: nat) {
    |vs| == |es| + 1 && forall i | 0 <= i < |es| :: Next(vs[i], es[i], vs[i + 1]) && SoundEvent(vs[i], es[i], n)
  }

  lemma NothingAdopted(users: seq<UserInfo>)
    ensures LastAdopted(users, []) == users
  {
  }

  lemma StepAdopts(users: seq<UserInfo>, es: seq<Event>, e: Event, v: View, v': View)
    requires Next(v, e, v') && v.users == LastAdopted(users, es)
    ensures v'.users == LastAdopted(users, es + [e])
  {
    assert (es + [e])[..|es|] == es;
    hide WithUsers, WithoutUsers, WithUids, IsDiff, WithAlive;
  }

  /** The main result on user tables: from any state in which they agree, after any sequence of
      connections, drains, refreshes and reloads, the limiter's table, its uid map, the inbound's users
      and the shared uid map hold the users of the last adopted list with its ids and speed limits, and
      every cached bucket is one of a known user at the current rate. */
  lemma {:induction false} TablesConverge(vs: seq<View>, es: seq<Event>, n: nat, k: nat)
    requires IsRun(vs, es, n) && Inv(vs[0], n) && k < |vs|
    ensures Inv(vs[k], n) && vs[k].users == LastAdopted(vs[0].users, es[..k])
  {
    hide Inv, Next, SoundEvent, LastAdopted;
    if k == 0 {
      NothingAdopted(vs[0].users);
      assert es[..0] == [];
    } else {
      TablesConverge(vs, es, n, k - 1);
      assert es[..k] == es[..k - 1] + [es[k - 1]];
      StepKeepsInv(vs[k - 1], es[k - 1], vs[k], n);
      StepAdopts(vs[0].users, es[..k - 1], es[k - 1], vs[k - 1], vs[k]);
    }
  }

  /** The last non-empty list among the fetched ones. */
  function LastNonEmpty(users: seq<UserInfo>, es: seq<Event>): seq<UserInfo> {
    if es == [] then users
    else
      var before, last := LastNonEmpty(users, es[..|es| - 1]), es[|es| - 1];
      match last
      case Refresh(us, alive) => if us == [] then before else us
      case Reload(tag, us, alive) => if Adopted([], us) == [] then before else us.value
      case _ => before
  }

  predicate Brings(e: Event) {
    e.Refresh? || (e.Reload? && e.fetched.Some?)
  }

  predicate BringsNobody(e: Event) {
    e.Reload? && e.fetched == Some([])
  }

  /** The i-th event is a reload with an empty list, and no later one brings a list. */
  ghost predicate EmptiedAt(es: seq<Event>, i: nat)
    requires i < |es|
  {
    BringsNobody(es[i]) && forall j | i < j < |es| :: !Brings(es[j])
  }

  /** Some reload fetched an empty list, and nothing has brought a list since. */
  ghost predicate Emptied(es: seq<Event>) {
    exists i | 0 <= i < |es| :: EmptiedAt(es, i)
  }

  lemma EmptiedStep(es: seq<Event>)
    requires es != []
    ensures var init, last := es[..|es| - 1], es[|es| - 1];
            Emptied(es) <==> BringsNobody(last) || (Emptied(init) && !Brings(last))
  {
    var init, last := es[..|es| - 1], es[|es| - 1];
    if Emptied(init) && !Brings(last) {
      var i :| 0 <= i < |init| && EmptiedAt(init, i);
      assert forall j | i < j < |es| :: !Brings(es[j]) by {
        forall j | i < j < |es| ensures !Brings(es[j]) {
          assert j < |init| ==> es[j] == init[j];
        }
      }
      assert EmptiedAt(es, i);
    }
    if BringsNobody(last) {
      assert EmptiedAt(es, |es| - 1);
    }
    if i :| 0 <= i < |es| && EmptiedAt(es, i) {
      if i < |init| {
        assert forall j | i < j < |init| :: init[j] == es[j];
        assert EmptiedAt(init, i);
      }
    }
  }

  lemma {:induction false} AdoptsByEvents(users: seq<UserInfo>, es: seq<Event>)
    requires users != [] && forall i | 0 <= i < |es| && es[i].Refresh? :: es[i].users != []
    ensures LastNonEmpty(users, es) != []
    ensures if Emptied(es) then LastAdopted(users, es) == [] else LastAdopted(users, es) == LastNonEmpty(users, es)
  {
    hide Emptied;
    if es == [] {
      NotEmptied();
    } else {
      AdoptsByEvents(users, es[..|es| - 1]);
      EmptiedStep(es);
    }
  }

  lemma NotEmptied()
    ensures !Emptied([])
  {
  }

  /** The node fails to hold the last non-empty list it fetched if and only if some reload fetched an empty
      list and nothing has brought a list since: a reload adopts an empty list, a refresh does not. */
  lemma AdoptsNonEmptyExactly(users: seq<UserInfo>, es: seq<Event>)
    requires users != [] && forall i | 0 <= i < |es| && es[i].Refresh? :: es[i].users != []
    ensures LastNonEmpty(users, es) != []
    ensures LastAdopted(users, es) == LastNonEmpty(users, es) <==> !Emptied(es)
    ensures LastAdopted(users, es) == LastNonEmpty(users, es) <==> LastAdopted(users, es) != []
  {
    hide Emptied;
    AdoptsByEvents(users, es);
  }

  /** One such reload leaves a node that had a user without any. */
  lemma EmptyReloadAdopted(u: UserInfo, tag: string, counts: map<int, int>)
    ensures var es := [Reload(tag, Some([]), counts)];
            LastAdopted([u], es) == [] && LastNonEmpty([u], es) == [u]
  {
    var es := [Reload(tag, Some([]), counts)];
    assert es[..0] == [];
    assert LastAdopted([u], es[..0]) == [u] && LastNonEmpty([u], es[..0]) == [u];
  }
}
