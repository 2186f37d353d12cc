/** The device limit that is in force for a user: not always that of the list the node holds, for a refresh takes a
    user with another device limit for the one it has (node/user.go). */
module DeviceLimits {
  import opened Formats
  import opened Limiter
  import opened UserDiff
  import opened Convergence
  import opened Sing
  import LimiterRuns

  /** The device limit in the limiter's entry for a uuid. */
  ghost function DeviceLimit(v: View, x: string): Option<int> {
    var t := v.tag + "|" + x;
    if t in v.limiter.users then Some(v.limiter.users[t].deviceLimit) else None
  }

  /** A user that a step adds gets an entry with its device limit. */
  lemma AddedEntry(v: View, e: Event, v': View, n: nat, u: UserInfo)
    requires Next(v, e, v') && Inv(v, n) && SoundEvent(v, e, n)
    requires u in v'.users && Enters(v, e, u.uuid)
    ensures DeviceLimit(v', u.uuid) == Some(u.deviceLimit)
  {
    match e
    case Limit(l) =>
    case Keep(alive) =>
    case Refresh(users, alive) =>
      var deleted, added :| IsDiff(v.users, users, deleted, added) && v' == Refreshed(v, users, alive, deleted, added);
      AddedByRefresh(v, users, alive, deleted, added, n, u);
    case Reload(tag, fetched, alive) =>
      hide WithUsers, WithUids;
      TableOfUsers(Fresh(v.limiter.speedLimit, alive), tag, v'.users, u);
  }

  lemma AddedByRefresh(v: View, users: seq<UserInfo>, alive: Option<map<int, int>>, deleted: seq<UserInfo>,
      added: seq<UserInfo>, n: nat, u: UserInfo)
    requires Sound(v.users, n) && Sound(users, n) && IsDiff(v.users, users, deleted, added)
    requires u in users && Enters(v, Refresh(users, alive), u.uuid)
    ensures DeviceLimit(Refreshed(v, users, alive, deleted, added), u.uuid) == Some(u.deviceLimit)
  {
    hide IsDiff, WithUsers, WithoutUsers, WithUids, Enters;
    RefreshUuids(v, users, alive, deleted, added, n, u.uuid);
    DiffIsExact(v.users, users, deleted, added, n);
    var a :| a in added && a.uuid == u.uuid;
    SameUser(users, a, u);
    RefreshEntry(WithAlive(v.limiter, alive), v.tag, deleted, added, u);
  }

  /** The entry of any other user it lists has the device limit it had. */
  lemma KeptEntry(v: View, e: Event, v': View, n: nat, x: string)
    requires Next(v, e, v') && Inv(v, n) && SoundEvent(v, e, n)
    requires x in Uuids(v'.users) && !Enters(v, e, x)
    ensures x in Uuids(v.users) && DeviceLimit(v', x) == DeviceLimit(v, x)
  {
    match e
    case Limit(l) => KeptByLimit(v, l, v', n, x);
    case Keep(alive) =>
    case Refresh(users, alive) =>
      var deleted, added :| IsDiff(v.users, users, deleted, added) && v' == Refreshed(v, users, alive, deleted, added);
      KeptByRefresh(v, users, alive, deleted, added, n, x);
    case Reload(tag, fetched, alive) =>
  }

  lemma KeptByLimit(v: View, l: LimiterRuns.Event, v': View, n: nat, x: string)
    requires Inv(v, n) && Next(v, Limit(l), v') && x in Uuids(v.users)
    ensures DeviceLimit(v', x) == DeviceLimit(v, x)
  {
    match l
    case Check(taguuid, ip, track, now) =>
      if taguuid in v.limiter.users { NoDynamicLimits(v.limiter, v.tag, v.users, taguuid); }
      hide Checked, TableHolds, Coherent;
      CheckKeepsTables(v.limiter, taguuid, ip, track, now);
    case Drain(rows) =>
  }

  lemma KeptByRefresh(v: View, users: seq<UserInfo>, alive: Option<map<int, int>>, deleted: seq<UserInfo>,
      added: seq<UserInfo>, n: nat, x: string)
    requires Inv(v, n) && Sound(users, n) && IsDiff(v.users, users, deleted, added)
    requires x in Uuids(users) && !Enters(v, Refresh(users, alive), x)
    ensures x in Uuids(v.users)
    ensures DeviceLimit(Refreshed(v, users, alive, deleted, added), x) == DeviceLimit(v, x)
  {
    hide IsDiff, WithUsers, WithoutUsers, WithUids, Enters, Coherent;
    RefreshUuids(v, users, alive, deleted, added, n, x);
    DiffIsExact(v.users, users, deleted, added, n);
    var u :| u in users && u.uuid == x;
    var w := KeptUser(v.users, users, deleted, added, n, u);
    assert UserHeld(v.limiter, v.tag, w);
    RefreshEntry(WithAlive(v.limiter, alive), v.tag, deleted, added, u);
  }

  /** Over any part of a run that does not add the user, its entry keeps the device limit it had. */
  lemma {:induction false} DeviceLimitStays(vs: seq<View>, es: seq<Event>, n: nat, i: nat, k: nat, x: string)
    requires IsRun(vs, es, n) && Inv(vs[0], n) && i <= k < |vs| && x in Uuids(vs[k].users)
    requires forall q | i <= q < k :: !Enters(vs[q], es[q], x)
    ensures x in Uuids(vs[i].users) && DeviceLimit(vs[k], x) == DeviceLimit(vs[i], x)
    decreases k
  {
    hide Inv, Enters, Next, SoundEvent, Uuids, DeviceLimit;
    if i < k {
      TablesConverge(vs, es, n, k - 1);
      KeptEntry(vs[k - 1], es[k - 1], vs[k], n, x);
      DeviceLimitStays(vs, es, n, i, k - 1, x);
    }
  }

  /** The main result on device limits: at any time of a run, a user has the device limit of the list that last added
      it, by a start, a reload, or a refresh that found it new or with another speed limit; whatever later lists
      say of it. */
  lemma DeviceLimitOfLastAdding(vs: seq<View>, es: seq<Event>, n: nat, i: nat, k: nat, u: UserInfo)
    requires IsRun(vs, es, n) && Inv(vs[0], n) && i < k < |vs| && u.uuid in Uuids(vs[k].users)
    requires u in vs[i + 1].users && Enters(vs[i], es[i], u.uuid)
    requires forall q | i < q < k :: !Enters(vs[q], es[q], u.uuid)
    ensures DeviceLimit(vs[k], u.uuid) == Some(u.deviceLimit)
  {
    hide Inv, Enters, Next, SoundEvent, Uuids, DeviceLimit;
    TablesConverge(vs, es, n, i);
    AddedEntry(vs[i], es[i], vs[i + 1], n, u);
    DeviceLimitStays(vs, es, n, i + 1, k, u.uuid);
  }

  /** A start adds its whole list. */
  lemma StartedDeviceLimit(tag: string, nodeLimit: int, uidMap: map<string, int>, users: seq<UserInfo>,
      alive: map<int, int>, n: nat, u: UserInfo)
    requires Sound(users, n) && u in users
    ensures var blank := View(tag, [], Fresh(nodeLimit, map[]), {}, uidMap);
            DeviceLimit(Reloaded(blank, tag, Some(users), alive), u.uuid) == Some(u.deviceLimit)
  {
    hide WithUsers, WithUids;
    TableOfUsers(Fresh(nodeLimit, alive), tag, users, u);
  }

  /** A user that a refresh lists with the speed limit it had keeps the device limit it had: the new one goes unseen. */
  lemma NewDeviceLimitUnseen(v: View, users: seq<UserInfo>, alive: Option<map<int, int>>, v': View, n: nat, w: UserInfo)
    requires Next(v, Refresh(users, alive), v') && Inv(v, n) && Sound(users, n) && w in users
    requires UserDiff.Lists(v.users, w.uuid, w.speedLimit)
    ensures DeviceLimit(v', w.uuid) == DeviceLimit(v, w.uuid)
  {
    var deleted, added :| IsDiff(v.users, users, deleted, added) && v' == Refreshed(v, users, alive, deleted, added);
    NotAdded(v, users, alive, n, w);
    KeptByRefresh(v, users, alive, deleted, added, n, w.uuid);
  }

  lemma NotAdded(v: View, users: seq<UserInfo>, alive: Option<map<int, int>>, n: nat, w: UserInfo)
    requires Sound(users, n) && w in users && UserDiff.Lists(v.users, w.uuid, w.speedLimit)
    ensures !Enters(v, Refresh(users, alive), w.uuid)
  {
    forall u | u in users && u.uuid == w.uuid ensures u == w {
      SameUser(users, u, w);
    }
  }
}
