/** What a node's user tables hold after a refresh that fails, and after a reload of a named node: which of
    these states later agree again (node/task.go). */
module Refusals {
  import opened Formats
  import opened Limiter
  import opened LimiterRuns
  import opened UserDiff
  import opened Sing
  import opened Convergence

  // ---- A refresh that fails ----

  /** The inbound refuses the deletion or, with the deletion done, the addition.  The shared uids, and the
      inbound's users in the second case, are ahead of the list and the limiter. */
  function Refused(v: View, deleted: seq<UserInfo>, added: seq<UserInfo>, removed: bool): View {
    if removed then v.(inbound := v.inbound - Uuids(deleted), uidMap := WithUids(v.uidMap - Uuids(deleted), added))
    else v.(uidMap := v.uidMap - Uuids(deleted))
  }

  /** The tables after a refresh: `present` is whether the inbound exists, `removed` and `accepted` whether it
      gives up and takes in users. */
  function AfterRefresh(v: View, users: seq<UserInfo>, deleted: seq<UserInfo>, added: seq<UserInfo>,
                        present: bool, removed: bool, accepted: bool): View {
    if deleted == [] && added == [] then Refreshed(v, users, None, deleted, added)
    else if !present then v
    else if deleted != [] && !removed then Refused(v, deleted, added, false)
    else if added != [] && !accepted then Refused(v, deleted, added, true)
    else Refreshed(v, users, None, deleted, added)
  }

  /** `v'` is what a refresh with the list `users` leaves of `v`. */
  ghost predicate Follows(v: View, users: seq<UserInfo>, present: bool, removed: bool, accepted: bool, v': View) {
    exists deleted, added ::
      IsDiff(v.users, users, deleted, added) && v' == AfterRefresh(v, users, deleted, added, present, removed, accepted)
  }

  lemma FollowsBy(v: View, users: seq<UserInfo>, deleted: seq<UserInfo>, added: seq<UserInfo>, present: bool,
                  removed: bool, accepted: bool)
    requires IsDiff(v.users, users, deleted, added)
    ensures Follows(v, users, present, removed, accepted,
                    AfterRefresh(v, users, deleted, added, present, removed, accepted))
  {
    hide IsDiff, AfterRefresh;
  }

  /** What a refresh leaves, case by case. */
  lemma AfterRefreshMeans(v: View, users: seq<UserInfo>, deleted: seq<UserInfo>, added: seq<UserInfo>, present: bool,
                          removed: bool, accepted: bool)
    ensures var r := AfterRefresh(v, users, deleted, added, present, removed, accepted);
            if deleted == [] && added == [] then r == View(v.tag, users, v.limiter, v.inbound, v.uidMap)
            else if !present then r == v
            else if deleted != [] && !removed then
              r == View(v.tag, v.users, v.limiter, v.inbound, v.uidMap - Uuids(deleted))
            else if added != [] && !accepted then
              r == View(v.tag, v.users, v.limiter, v.inbound - Uuids(deleted),
                        WithUids(v.uidMap - Uuids(deleted), added))
            else
              r == View(v.tag, users, WithUsers(WithoutUsers(v.limiter, v.tag, deleted), v.tag, added),
                        v.inbound - Uuids(deleted) + Uuids(added), WithUids(v.uidMap - Uuids(deleted), added))
  {
    hide Uuids;
    if deleted == [] && added == [] {
      NoneListed();
      assert v.inbound - {} + {} == v.inbound && v.uidMap - {} == v.uidMap;
    }
  }

  lemma NoneListed()
    ensures Uuids([]) == {}
  {
  }

  /** The inbound has this user and its uid is known. */
  ghost predicate Holds(v: View, u: UserInfo) {
    u.uuid in v.inbound && u.uuid in v.uidMap && v.uidMap[u.uuid] == u.id
  }

  /** What refusals leave: the limiter agrees with the list, the inbound has no other users. */
  ghost predicate Half(v: View, n: nat) {
    && Sound(v.users, n)
    && TableHolds(v.limiter, v.tag, v.users)
    && Coherent(v.limiter)
    && v.inbound <= Uuids(v.users)
  }

  /** The same with the inbound and the uids made to agree. */
  ghost function Mended(v: View): View {
    v.(inbound := Uuids(v.users), uidMap := WithUids(v.uidMap, v.users))
  }

  lemma MendedHolds(v: View, n: nat)
    ensures Half(v, n) ==> Inv(Mended(v), n)
    ensures Inv(Mended(v), n) && v.inbound <= Uuids(v.users) ==> Half(v, n)
    ensures Inv(v, n) ==> Half(v, n)
  {
    WithUidsStores(v.uidMap, v.users);
    hide WithUids, UidsHold, Uuids, TableHolds, Coherent;
  }

  lemma MissingExactly(v: View, n: nat)
    requires Half(v, n)
    ensures Inv(v, n) <==> forall u | u in v.users :: Holds(v, u)
  {
    hide TableHolds, Coherent;
  }

  /** After a successful refresh the node has a user if and only if it is new to the list, or new with
      its speed limit, or the node had it. */
  lemma UserAfterRefresh(v: View, users: seq<UserInfo>, alive: Option<map<int, int>>, deleted: seq<UserInfo>,
                         added: seq<UserInfo>, n: nat, u: UserInfo)
    requires Sound(v.users, n) && Sound(users, n) && IsDiff(v.users, users, deleted, added) && u in users
    ensures Holds(Refreshed(v, users, alive, deleted, added), u) <==>
      !UserDiff.Lists(v.users, u.uuid, u.speedLimit) || Holds(v, u)
  {
    hide WithUsers, WithoutUsers, WithAlive, IsDiff, WithUids;
    DiffIsExact(v.users, users, deleted, added, n);
    WithUidsStores(v.uidMap - Uuids(deleted), added);
    if u !in added {
      var w := KeptUser(v.users, users, deleted, added, n, u);
    }
  }

  lemma HalfAfterRefresh(v: View, users: seq<UserInfo>, alive: Option<map<int, int>>, deleted: seq<UserInfo>,
                         added: seq<UserInfo>, n: nat)
    requires Half(v, n) && Sound(users, n) && KeepsIds(v.users, users) && IsDiff(v.users, users, deleted, added)
    ensures Half(Refreshed(v, users, alive, deleted, added), n)
  {
    MendedHolds(v, n);
    RefreshKeepsInv(Mended(v), users, alive, deleted, added, n);
    DiffUuids(v.users, users, deleted, added, n);
    hide TableHolds, Coherent, UidsHold, IsDiff, WithUsers, WithoutUsers, WithUids, Sound;
  }

  /** From there a successful refresh makes all tables agree again if and only if the node has every user that the
      refresh does not add. */
  lemma RefreshMendsExactly(v: View, users: seq<UserInfo>, alive: Option<map<int, int>>, deleted: seq<UserInfo>,
                            added: seq<UserInfo>, n: nat)
    requires Half(v, n) && Sound(users, n) && KeepsIds(v.users, users) && IsDiff(v.users, users, deleted, added)
    ensures Inv(Refreshed(v, users, alive, deleted, added), n) <==>
      forall u | u in users && UserDiff.Lists(v.users, u.uuid, u.speedLimit) :: Holds(v, u)
  {
    var r := Refreshed(v, users, alive, deleted, added);
    assert r.users == users && Sound(v.users, n);
    hide *;
    HalfAfterRefresh(v, users, alive, deleted, added, n);
    MissingExactly(r, n);
    forall u | u in users
      ensures Holds(r, u) <==> !UserDiff.Lists(v.users, u.uuid, u.speedLimit) || Holds(v, u)
    {
      UserAfterRefresh(v, users, alive, deleted, added, n, u);
    }
  }

  // ---- Refusals in a row, with connections between them ----

  datatype Setback =
    | Refusal(fetched: seq<UserInfo>, alive: Option<map<int, int>>, deleted: seq<UserInfo>, added: seq<UserInfo>,
        removed: bool)
    | Meanwhile(e: Convergence.Event)  // a connection, a drain or alive counts

  ghost predicate Happens(v: View, s: Setback, v': View) {
    match s
    case Refusal(fetched, alive, deleted, added, removed) =>
      && IsDiff(v.users, fetched, deleted, added)
      && v' == Refused(v.(limiter := WithAlive(v.limiter, alive)), deleted, added, removed)
    case Meanwhile(e) => (e.Limit? || e.Keep?) && Convergence.Next(v, e, v')
  }

  ghost predicate Endures(v: View, s: Setback, v': View, n: nat) {
    (s.Refusal? ==> Sound(s.fetched, n)) && Happens(v, s, v')
  }

  ghost predicate AreSetbacks(vs: seq<View>, ss: seq<Setback>, n: nat) {
    |vs| == |ss| + 1 && forall i | 0 <= i < |ss| :: Endures(vs[i], ss[i], vs[i + 1], n)
  }

  predicate Deletes(s: Setback, uuid: string) {
    s.Refusal? && uuid in Uuids(s.deleted)
  }

  lemma MeanwhileMended(v: View, e: Convergence.Event, v': View)
    requires (e.Limit? || e.Keep?) && Convergence.Next(v, e, v')
    ensures Convergence.Next(Mended(v), e, Mended(v'))
    ensures v'.inbound == v.inbound && v'.users == v.users && v'.uidMap == v.uidMap
  {
  }

  lemma SetbackKeepsHalf(v: View, s: Setback, v': View, n: nat)
    requires Half(v, n) && Endures(v, s, v', n)
    ensures Half(v', n) && v'.users == v.users
  {
    match s
    case Refusal(fetched, alive, deleted, added, removed) =>
    case Meanwhile(e) =>
      MeanwhileMended(v, e, v');
      hide *;
      MendedHolds(v, n);
      MendedHolds(v', n);
      NoList(Mended(v), e, n);
      StepKeepsInv(Mended(v), e, Mended(v'), n);
      InboundIn(v, n);
  }

  lemma NoList(v: View, e: Convergence.Event, n: nat)
    requires e.Limit? || e.Keep?
    ensures SoundEvent(v, e, n)
  {
  }

  lemma InboundIn(v: View, n: nat)
    requires Half(v, n)
    ensures v.inbound <= Uuids(v.users)
  {
  }

  /** A listed user is lost in a refusal if and only if it was to be deleted: adding it would need that too. */
  lemma SetbackLoses(v: View, s: Setback, v': View, n: nat, u: UserInfo)
    requires Half(v, n) && Endures(v, s, v', n) && u in v.users
    ensures Holds(v', u) <==> Holds(v, u) && !Deletes(s, u.uuid)
  {
    hide TableHolds, Coherent, WithUids;
    if s.Refusal? {
      WithUidsStores(v.uidMap - Uuids(s.deleted), s.added);
      if u.uuid in Uuids(s.added) {
        var a :| a in s.added && a.uuid == u.uuid;
        ChangedUser(v.users, s.fetched, s.deleted, s.added, n, a);
      }
    } else {
      MeanwhileMended(v, s.e, v');
    }
  }

  lemma {:induction false} SetbacksLose(vs: seq<View>, ss: seq<Setback>, n: nat, k: nat)
    requires AreSetbacks(vs, ss, n) && Inv(vs[0], n) && k < |vs|
    ensures Half(vs[k], n) && vs[k].users == vs[0].users
    ensures forall u | u in vs[0].users :: Holds(vs[k], u) <==> forall i | 0 <= i < k :: !Deletes(ss[i], u.uuid)
  {
    hide Inv, Half, Holds, Deletes, Endures;
    if k == 0 {
      MendedHolds(vs[0], n);
      MissingExactly(vs[0], n);
    } else {
      SetbacksLose(vs, ss, n, k - 1);
      SetbackKeepsHalf(vs[k - 1], ss[k - 1], vs[k], n);
      forall u | u in vs[0].users
        ensures Holds(vs[k], u) <==> Holds(vs[k - 1], u) && !Deletes(ss[k - 1], u.uuid)
      {
        SetbackLoses(vs[k - 1], ss[k - 1], vs[k], n, u);
      }
    }
  }

  /** After any number of refused refreshes, with connections, drains and alive counts between them, the next
      successful refresh makes the tables agree again if and only if no user that some refusal was to delete is
      in its list with the speed limit the node still holds: such a user is not added again, and its traffic
      goes on being dropped as nobody's. */
  lemma RefreshAfterRefusalsExactly(vs: seq<View>, ss: seq<Setback>, users: seq<UserInfo>,
      alive: Option<map<int, int>>, deleted: seq<UserInfo>, added: seq<UserInfo>, n: nat)
    requires AreSetbacks(vs, ss, n) && Inv(vs[0], n)
    requires var v := vs[|ss|];
             Sound(users, n) && KeepsIds(v.users, users) && IsDiff(v.users, users, deleted, added)
    ensures Inv(Refreshed(vs[|ss|], users, alive, deleted, added), n) <==>
      forall u, i | u in users && UserDiff.Lists(vs[0].users, u.uuid, u.speedLimit) && 0 <= i < |ss| ::
        !Deletes(ss[i], u.uuid)
  {
    hide Inv, Half, Deletes, IsDiff, Sound, Endures;
    SetbacksLose(vs, ss, n, |ss|);
    RefreshMendsExactly(vs[|ss|], users, alive, deleted, added, n);
    forall u | u in users && UserDiff.Lists(vs[0].users, u.uuid, u.speedLimit)
      ensures Holds(vs[|ss|], u) <==> forall i | 0 <= i < |ss| :: !Deletes(ss[i], u.uuid)
    {
      var w :| w in vs[0].users && w.uuid == u.uuid && w.speedLimit == u.speedLimit;
      assert w.id == u.id;
    }
  }

  /** The same for one refusal and a success right after it. */
  lemma RefreshAfterRefusalExactly(v: View, fetched: seq<UserInfo>, deleted: seq<UserInfo>, added: seq<UserInfo>,
      removed: bool, users: seq<UserInfo>, alive: Option<map<int, int>>, deleted': seq<UserInfo>, added': seq<UserInfo>,
      n: nat)
    requires Inv(v, n) && Sound(fetched, n) && IsDiff(v.users, fetched, deleted, added)
    requires Sound(users, n) && KeepsIds(v.users, users) && IsDiff(v.users, users, deleted', added')
    ensures Inv(Refreshed(Refused(v, deleted, added, removed), users, alive, deleted', added'), n) <==>
      forall u | u in users && UserDiff.Lists(v.users, u.uuid, u.speedLimit) :: u.uuid !in Uuids(deleted)
  {
    hide Inv, Sound, IsDiff, UserDiff.Lists, WithUids, KeepsIds, Uuids, Refreshed;
    var q := Refused(v, deleted, added, removed);
    var vs, ss := [v, q], [Refusal(fetched, None, deleted, added, removed)];
    assert v.(limiter := WithAlive(v.limiter, None)) == v;
    RefreshAfterRefusalsExactly(vs, ss, users, alive, deleted', added', n);
    assert forall u: UserInfo :: Deletes(ss[0], u.uuid) <==> u.uuid in Uuids(deleted);
  }

  // ---- A reload of a named node ----

  /** The inbound and the uids are set up for the adopted list; the limiter keeps its users. */
  function ReloadedNamed(v: View, fetched: Option<seq<UserInfo>>, alive: Option<map<int, int>>): View {
    var us := Adopted(v.users, fetched);
    View(v.tag, us, WithAlive(v.limiter, alive), Uuids(us), WithUids(v.uidMap, us))
  }

  /** What a limiter holds of its users. */
  ghost function Known(us: seq<UserInfo>): set<(string, int, int)> {
    set u | u in us :: (u.uuid, u.id, u.speedLimit)
  }

  lemma KnownMatters(s: State, tag: string, us: seq<UserInfo>, us': seq<UserInfo>)
    requires TableHolds(s, tag, us) && Known(us') <= Known(us)
    ensures forall u | u in us' :: UserHeld(s, tag, u)
    ensures Tags(tag, us') <= Tags(tag, us) && Uuids(us') <= Uuids(us)
  {
    forall u | u in us' ensures UserHeld(s, tag, u) && UserTag(tag, u.uuid) in Tags(tag, us) && u.uuid in Uuids(us) {
      assert (u.uuid, u.id, u.speedLimit) in Known(us');
      var w :| w in us && (w.uuid, w.id, w.speedLimit) == (u.uuid, u.id, u.speedLimit);
      assert UserHeld(s, tag, w);
    }
  }

  lemma HeldIsKnown(s: State, tag: string, us: seq<UserInfo>, us': seq<UserInfo>)
    requires TableHolds(s, tag, us) && TableHolds(s, tag, us')
    ensures Known(us') <= Known(us)
  {
    forall u | u in us' ensures (u.uuid, u.id, u.speedLimit) in Known(us) {
      assert UserHeld(s, tag, u) && u.uuid in Uuids(us);
      var w :| w in us && w.uuid == u.uuid;
      assert UserHeld(s, tag, w);
    }
  }

  /** After a reload of a named node the tables agree if and only if the adopted list has the users, with
      ids and speed limits, that the limiter held already. */
  lemma NamedReloadExactly(v: View, fetched: Option<seq<UserInfo>>, alive: Option<map<int, int>>, n: nat)
    requires Inv(v, n) && (fetched.Some? ==> Sound(fetched.value, n))
    ensures Inv(ReloadedNamed(v, fetched, alive), n) <==> Known(Adopted(v.users, fetched)) == Known(v.users)
  {
    var us := Adopted(v.users, fetched);
    WithUidsStores(v.uidMap, us);
    var s := WithAlive(v.limiter, alive);
    assert TableHolds(s, v.tag, v.users);
    hide WithUids, UidsHold, Uuids, Tags;
    if Known(us) == Known(v.users) {
      KnownMatters(s, v.tag, v.users, us);
      TablesOfKnown(s, v.tag, v.users, us);
    }
    if TableHolds(s, v.tag, us) {
      HeldIsKnown(s, v.tag, v.users, us);
      HeldIsKnown(s, v.tag, us, v.users);
    }
  }

  lemma TablesOfKnown(s: State, tag: string, us: seq<UserInfo>, us': seq<UserInfo>)
    requires TableHolds(s, tag, us) && Known(us') == Known(us)
    ensures TableHolds(s, tag, us')
  {
    KnownMatters(s, tag, us, us');
    forall u | u in us ensures UserTag(tag, u.uuid) in Tags(tag, us') && u.uuid in Uuids(us') {
      assert (u.uuid, u.id, u.speedLimit) in Known(us);
      var w :| w in us' && (w.uuid, w.id, w.speedLimit) == (u.uuid, u.id, u.speedLimit);
    }
  }
}
