/** Several nodes on one proxy core.  They share its uid map, from which a refresh of one node deletes the
    uuids it removes, whoever else lists them (core/sing/user.go). */
module SharedUids {
  import opened Formats
  import opened Limiter
  import opened UserDiff
  import opened Sing
  import opened Convergence

  /** One node moves by itself. */
  datatype Move = Move(node: nat, e: Event)

  /** All nodes see the same uids. */
  ghost predicate Shared(vs: seq<View>) {
    forall i, j | 0 <= i < |vs| && 0 <= j < |vs| :: vs[i].uidMap == vs[j].uidMap
  }

  ghost predicate Step(vs: seq<View>, m: Move, vs': seq<View>) {
    && m.node < |vs| == |vs'|
    && Next(vs[m.node], m.e, vs'[m.node])
    && forall j | 0 <= j < |vs| && j != m.node :: vs'[j] == vs[j].(uidMap := vs'[m.node].uidMap)
  }

  ghost predicate AllInv(vs: seq<View>, n: nat) {
    forall j | 0 <= j < |vs| :: Inv(vs[j], n)
  }

  // ---- What is assumed of the panel ----

  /** The panel gives a uuid one id, whichever node it lists it for. */
  ghost predicate Given(us: seq<UserInfo>, ids: map<string, int>) {
    forall u | u in us :: u.uuid in ids && ids[u.uuid] == u.id
  }

  ghost predicate GivenEvent(e: Event, n: nat, ids: map<string, int>) {
    match e
    case Refresh(users, alive) => Sound(users, n) && Given(users, ids)
    case Reload(tag, fetched, alive) => fetched.Some? ==> Sound(fetched.value, n) && Given(fetched.value, ids)
    case _ => true
  }

  // ---- One uuid over one step ----

  /** After a step a uuid has a uid if and only if the node has added it, or it had one and the node has not
      removed it; what is added gets the panel's id. */
  lemma UidAfter(v: View, e: Event, v': View, n: nat, ids: map<string, int>, x: string)
    requires Next(v, e, v') && Sound(v.users, n) && Given(v.users, ids) && GivenEvent(e, n, ids)
    ensures x in v'.uidMap <==> Enters(v, e, x) || (x in v.uidMap && !Leaves(v, e, x))
    ensures x in v'.uidMap ==>
      if Enters(v, e, x) then x in ids && v'.uidMap[x] == ids[x] else x in v.uidMap && v'.uidMap[x] == v.uidMap[x]
    ensures x in Uuids(v'.users) ==> x in Uuids(v.users) || Enters(v, e, x)
  {
    match e
    case Limit(l) =>
    case Keep(alive) =>
    case Refresh(users, alive) =>
      var deleted, added :| IsDiff(v.users, users, deleted, added) && v' == Refreshed(v, users, alive, deleted, added);
      DiffIsExact(v.users, users, deleted, added, n);
      RefreshUuids(v, users, alive, deleted, added, n, x);
      UidStored(v.uidMap - Uuids(deleted), added, ids, x);
      hide IsDiff, Enters, Leaves, WithUids, WithUsers, WithoutUsers;
    case Reload(tag, fetched, alive) =>
      UidStored(v.uidMap, v'.users, ids, x);
      hide WithUids, WithUsers;
  }

  lemma UidStored(m: map<string, int>, us: seq<UserInfo>, ids: map<string, int>, x: string)
    requires DistinctUuids(us) && Given(us, ids)
    ensures var r := WithUids(m, us);
            && (x in r <==> x in m || x in Uuids(us))
            && (x in r ==> if x in Uuids(us) then x in ids && r[x] == ids[x] else r[x] == m[x])
  {
    WithUidsStores(m, us);
    hide WithUids;
    if x in Uuids(us) {
      var u :| u in us && u.uuid == x;
    }
  }

  // ---- What a node keeps without the uids ----

  ghost predicate Own(v: View, n: nat) {
    && Sound(v.users, n)
    && TableHolds(v.limiter, v.tag, v.users)
    && Coherent(v.limiter)
    && v.inbound == Uuids(v.users)
  }

  lemma OwnMeans(v: View, n: nat)
    ensures Inv(v, n) <==> Own(v, n) && UidsHold(v.uidMap, v.users)
    ensures Own(v, n) ==> Sound(v.users, n)
  {
  }

  lemma OwnOnly(v: View, m: map<string, int>, n: nat)
    ensures Own(v.(uidMap := m), n) <==> Own(v, n)
  {
  }

  /** The uids have no part in what else a step does. */
  lemma LikeStep(v: View, e: Event, v': View, m: map<string, int>) returns (w': View)
    requires Next(v, e, v')
    ensures Next(v.(uidMap := m), e, w') && w' == v'.(uidMap := w'.uidMap)
  {
    var w := v.(uidMap := m);
    match e
    case Limit(l) => w' := v'.(uidMap := m);
    case Keep(alive) => w' := v'.(uidMap := m);
    case Refresh(users, alive) =>
      var deleted, added :| IsDiff(v.users, users, deleted, added) && v' == Refreshed(v, users, alive, deleted, added);
      w' := Refreshed(w, users, alive, deleted, added);
    case Reload(tag, fetched, alive) => w' := Reloaded(w, tag, fetched, alive);
  }

  lemma OwnKept(v: View, e: Event, v': View, n: nat, ids: map<string, int>)
    requires Own(v, n) && Next(v, e, v') && Given(v.users, ids) && GivenEvent(e, n, ids)
    ensures Own(v', n) && Given(v'.users, ids)
  {
    GivenKept(v, e, v', n, ids);
    hide *;
    var m := WithUids(v.uidMap, v.users);
    var w := v.(uidMap := m);
    MendedUids(v, n);
    OwnOnly(v, m, n);
    OwnMeans(w, n);
    var w' := LikeStep(v, e, v', m);
    StepKeepsInv(w, e, w', n);
    OwnMeans(w', n);
    OwnOnly(v', w'.uidMap, n);
  }

  lemma MendedUids(v: View, n: nat)
    requires Own(v, n)
    ensures UidsHold(WithUids(v.uidMap, v.users), v.users)
  {
    WithUidsStores(v.uidMap, v.users);
  }

  lemma GivenKept(v: View, e: Event, v': View, n: nat, ids: map<string, int>)
    requires Next(v, e, v') && Given(v.users, ids) && GivenEvent(e, n, ids)
    ensures Given(v'.users, ids)
    ensures forall w: View | w.users == v.users :: SoundEvent(w, e, n)
  {
  }

  // ---- All nodes over one step ----

  ghost predicate Ready(vs: seq<View>, n: nat, ids: map<string, int>) {
    Shared(vs) && forall j | 0 <= j < |vs| :: Own(vs[j], n) && Given(vs[j].users, ids)
  }

  /** The uuid has its uid. */
  ghost predicate Kept(v: View, ids: map<string, int>, x: string) {
    x in v.uidMap && x in ids && v.uidMap[x] == ids[x]
  }

  lemma InvExactly(v: View, n: nat, ids: map<string, int>)
    requires Own(v, n) && Given(v.users, ids)
    ensures Inv(v, n) <==> forall x | x in Uuids(v.users) :: Kept(v, ids, x)
  {
    hide TableHolds, Coherent, Sound;
    if forall x | x in Uuids(v.users) :: Kept(v, ids, x) {
      forall u | u in v.users ensures u.uuid in v.uidMap && v.uidMap[u.uuid] == u.id {
        assert u.uuid in Uuids(v.users);
      }
    }
    if Inv(v, n) {
      forall x | x in Uuids(v.users) ensures Kept(v, ids, x) {
        var u :| u in v.users && u.uuid == x;
      }
    }
  }

  lemma StepReady(vs: seq<View>, m: Move, vs': seq<View>, n: nat, ids: map<string, int>)
    requires Ready(vs, n, ids) && Step(vs, m, vs') && GivenEvent(m.e, n, ids)
    ensures Ready(vs', n, ids)
  {
    hide Own, Given, Next, GivenEvent;
    OwnKept(vs[m.node], m.e, vs'[m.node], n, ids);
    forall j | 0 <= j < |vs| && j != m.node ensures Own(vs'[j], n) {
      OwnOnly(vs[j], vs'[m.node].uidMap, n);
    }
  }

  /** A uuid some node lists, over a step of any node. */
  lemma StepUid(vs: seq<View>, m: Move, vs': seq<View>, n: nat, ids: map<string, int>, j: nat, x: string)
    requires Ready(vs, n, ids) && Step(vs, m, vs') && GivenEvent(m.e, n, ids) && j < |vs| && x in Uuids(vs'[j].users)
    ensures Kept(vs'[j], ids, x) <==>
      Enters(vs[m.node], m.e, x) || (Kept(vs[j], ids, x) && !Leaves(vs[m.node], m.e, x))
    ensures x in Uuids(vs[j].users) || Enters(vs[m.node], m.e, x)
  {
    var v, v' := vs[m.node], vs'[m.node];
    assert vs'[j].uidMap == v'.uidMap && vs[j].uidMap == v.uidMap;
    OwnMeans(v, n);
    hide Enters, Leaves, Next, Own, Given, GivenEvent, Uuids;
    UidAfter(v, m.e, v', n, ids, x);
  }

  /** The node that moves removes a uuid from its list that is in another's. */
  ghost predicate Takes(vs: seq<View>, m: Move)
    requires m.node < |vs|
  {
    exists j, x | 0 <= j < |vs| && j != m.node && x in Uuids(vs[j].users) :: Leaves(vs[m.node], m.e, x)
  }

  /** From a state in which all tables of all nodes agree, they agree after a step if and only if it is no refresh
      that removes, without adding it back, a uuid that is in another node's list. */
  lemma StepKeepsAllExactly(vs: seq<View>, m: Move, vs': seq<View>, n: nat, ids: map<string, int>)
    requires Shared(vs) && AllInv(vs, n) && forall j | 0 <= j < |vs| :: Given(vs[j].users, ids)
    requires Step(vs, m, vs') && GivenEvent(m.e, n, ids)
    ensures AllInv(vs', n) <==> !Takes(vs, m)
  {
    hide Given, Next, GivenEvent, Inv, Own, Leaves, Enters, Kept, Uuids;
    forall j | 0 <= j < |vs| ensures Own(vs[j], n) {
      OwnMeans(vs[j], n);
    }
    StepReady(vs, m, vs', n, ids);
    forall j | 0 <= j < |vs|
      ensures Inv(vs'[j], n) <==> forall x | x in Uuids(vs'[j].users) :: !(j != m.node && Leaves(vs[m.node], m.e, x))
    {
      StepKeepsOne(vs, m, vs', n, ids, j);
    }
  }

  lemma StepKeepsOne(vs: seq<View>, m: Move, vs': seq<View>, n: nat, ids: map<string, int>, j: nat)
    requires Ready(vs, n, ids) && Step(vs, m, vs') && GivenEvent(m.e, n, ids) && Ready(vs', n, ids)
    requires j < |vs| && Inv(vs[j], n)
    ensures Inv(vs'[j], n) <==> forall x | x in Uuids(vs'[j].users) :: !(j != m.node && Leaves(vs[m.node], m.e, x))
  {
    hide Given, Next, GivenEvent, Inv, Own, Kept, Shared;
    InvExactly(vs[j], n, ids);
    InvExactly(vs'[j], n, ids);
    forall x | x in Uuids(vs'[j].users)
      ensures Kept(vs'[j], ids, x) <==> !(j != m.node && Leaves(vs[m.node], m.e, x))
    {
      StepUid(vs, m, vs', n, ids, j, x);
      NotBoth(vs[m.node], m.e, x);
      if j == m.node { StaysListed(vs[j], m.e, vs'[j], x); }
    }
  }

  lemma StaysListed(v: View, e: Event, v': View, x: string)
    requires Next(v, e, v') && x in Uuids(v'.users)
    ensures !Leaves(v, e, x)
  {
  }

  // ---- Runs ----

  ghost predicate AreMoves(vss: seq<seq<View>>, ms: seq<Move>, n: nat, ids: map<string, int>) {
    |vss| == |ms| + 1 && forall i | 0 <= i < |ms| :: Step(vss[i], ms[i], vss[i + 1]) && GivenEvent(ms[i].e, n, ids)
  }

  /** The moving node removes the uuid. */
  predicate Removes(vs: seq<View>, m: Move, x: string) {
    m.node < |vs| && Leaves(vs[m.node], m.e, x)
  }

  ghost predicate Adds(vs: seq<View>, m: Move, x: string) {
    m.node < |vs| && Enters(vs[m.node], m.e, x)
  }

  /** Step i removes the uuid, and no later one up to k adds it. */
  ghost predicate GoneSince(vss: seq<seq<View>>, ms: seq<Move>, x: string, i: nat, k: nat)
    requires i < k <= |ms| < |vss|
  {
    Removes(vss[i], ms[i], x) && forall q | i < q < k :: !Adds(vss[q], ms[q], x)
  }

  ghost predicate Gone(vss: seq<seq<View>>, ms: seq<Move>, x: string, k: nat)
    requires k <= |ms| < |vss|
  {
    exists i | 0 <= i < k :: GoneSince(vss, ms, x, i, k)
  }

  lemma GoneStep(vss: seq<seq<View>>, ms: seq<Move>, x: string, k: nat)
    requires 0 < k <= |ms| < |vss|
    ensures Gone(vss, ms, x, k) <==>
      Removes(vss[k - 1], ms[k - 1], x) || (Gone(vss, ms, x, k - 1) && !Adds(vss[k - 1], ms[k - 1], x))
  {
    hide Removes, Adds;
    if Gone(vss, ms, x, k) {
      var i :| 0 <= i < k && GoneSince(vss, ms, x, i, k);
      if i < k - 1 {
        assert GoneSince(vss, ms, x, i, k - 1);
      }
    }
    if Removes(vss[k - 1], ms[k - 1], x) {
      assert GoneSince(vss, ms, x, k - 1, k);
    }
    if Gone(vss, ms, x, k - 1) && !Adds(vss[k - 1], ms[k - 1], x) {
      var i :| 0 <= i < k - 1 && GoneSince(vss, ms, x, i, k - 1);
      assert GoneSince(vss, ms, x, i, k);
    }
  }

  lemma {:induction false} RunReady(vss: seq<seq<View>>, ms: seq<Move>, n: nat, ids: map<string, int>, k: nat)
    requires AreMoves(vss, ms, n, ids) && Ready(vss[0], n, ids) && k <= |ms|
    ensures Ready(vss[k], n, ids) && |vss[k]| == |vss[0]|
  {
    hide Ready, GivenEvent;
    if k > 0 {
      RunReady(vss, ms, n, ids, k - 1);
      StepReady(vss[k - 1], ms[k - 1], vss[k], n, ids);
    }
  }

  /** At any time of a run, a uuid that some node lists has its uid if and only if no refresh has removed it from
      another list without any node having added it since. */
  lemma {:induction false} UidsExactly(vss: seq<seq<View>>, ms: seq<Move>, n: nat, ids: map<string, int>, k: nat,
                                       j: nat, x: string)
    requires AreMoves(vss, ms, n, ids) && Ready(vss[0], n, ids) && AllInv(vss[0], n) && k <= |ms|
    requires j < |vss[k]| && x in Uuids(vss[k][j].users)
    ensures Kept(vss[k][j], ids, x) <==> !Gone(vss, ms, x, k)
  {
    hide Inv, Kept, Enters, Leaves, Own, Given, GivenEvent, Next, Uuids, Shared;
    if k == 0 {
      InvExactly(vss[0][j], n, ids);
    } else {
      RunReady(vss, ms, n, ids, k - 1);
      GoneStep(vss, ms, x, k);
      StepUid(vss[k - 1], ms[k - 1], vss[k], n, ids, j, x);
      NotBoth(vss[k - 1][ms[k - 1].node], ms[k - 1].e, x);
      if x in Uuids(vss[k - 1][j].users) {
        UidsExactly(vss, ms, n, ids, k - 1, j, x);
      }
    }
  }

  /** The main result: at any time of a run of several nodes on one core, all tables of all nodes agree if and only
      if no uuid that a node lists is gone since a refresh of another. */
  lemma NodesAgreeExactly(vss: seq<seq<View>>, ms: seq<Move>, n: nat, ids: map<string, int>, k: nat)
    requires AreMoves(vss, ms, n, ids) && Ready(vss[0], n, ids) && AllInv(vss[0], n) && k <= |ms|
    ensures AllInv(vss[k], n) <==>
      forall j, x | 0 <= j < |vss[k]| && x in Uuids(vss[k][j].users) :: !Gone(vss, ms, x, k)
  {
    hide Inv, Kept, Gone, Own, Given, GivenEvent, Uuids, Shared, Step;
    RunReady(vss, ms, n, ids, k);
    forall j | 0 <= j < |vss[k]|
      ensures Inv(vss[k][j], n) <==> forall x | x in Uuids(vss[k][j].users) :: !Gone(vss, ms, x, k)
    {
      InvExactly(vss[k][j], n, ids);
      forall x | x in Uuids(vss[k][j].users) ensures Kept(vss[k][j], ids, x) <==> !Gone(vss, ms, x, k) {
        UidsExactly(vss, ms, n, ids, k, j, x);
      }
    }
  }

  lemma ReplacedDiff(u: UserInfo, w: UserInfo)
    requires |u.uuid| == |w.uuid| && u.uuid != w.uuid
    ensures IsDiff([u], [w], [u], [w])
  {
    UserKeyInjective(u, w);
    LastIndexOne([u], 0);
    LastIndexNone();
    assert [u][..0] == [] && [u][..1] == [u] && [w][1..] == [];
    assert [w][0] == w && [u][0] == u;
    assert LastIndex([u]) == map[UserKey(u) := 0];
    assert KeysOf([w]) == {UserKey(w)} && KeysOf([u]) == {UserKey(u)};
    assert Unmatched(LastIndex([u]), []) == [];
    assert [w] + [] == [w];
  }

  /** A node that has just been started for one user. */
  ghost function Alone(u: UserInfo, tag: string): (v: View)
    ensures v.users == [u] && v.uidMap == WithUids(map[], [u])
  {
    Reloaded(View(tag, [], Fresh(0, map[]), {}, map[]), tag, Some([u]), map[])
  }

  lemma AloneHolds(u: UserInfo, tag: string, n: nat)
    requires n == |u.uuid|
    ensures Inv(Alone(u, tag), n) && Alone(u, tag).inbound == {u.uuid}
  {
    StartHolds(tag, 0, map[], [u], map[], n);
    assert [u][0] == u && Uuids([u]) == {u.uuid};
  }

  lemma Replaced(u: UserInfo, w: UserInfo, v: View)
    requires u.uuid != w.uuid
    ensures u.uuid !in Refreshed(v, [w], None, [u], [w]).uidMap
  {
    WithUidsStores(v.uidMap - Uuids([u]), [w]);
    hide WithUids;
    assert [u][0] == u && [w][0] == w && Uuids([w]) == {w.uuid} && Uuids([u]) == {u.uuid};
  }

  lemma TwoNodes(v0: View, v1: View, e: Event, r: View, n: nat)
    requires Next(v0, e, r) && v0.uidMap == v1.uidMap && Inv(v0, n) && Inv(v1, n)
    ensures Shared([v0, v1]) && AllInv([v0, v1], n)
    ensures Step([v0, v1], Move(0, e), [r, v1.(uidMap := r.uidMap)])
  {
    hide Inv, Next;
    assert [v0, v1][0] == v0 && [v0, v1][1] == v1;
  }

  /** Two nodes list a user, and a refresh of the first replaces it: the second still serves it, and its traffic
      goes on being dropped as nobody's. */
  lemma RefreshTakesUid(u: UserInfo, w: UserInfo) returns (vs: seq<View>, m: Move, vs': seq<View>)
    requires |u.uuid| == |w.uuid| && u.uuid != w.uuid
    ensures |vs| == 2 && Shared(vs) && AllInv(vs, |u.uuid|) && Step(vs, m, vs')
    ensures |vs'| == 2 && vs'[1].users == [u] && u.uuid in vs'[1].inbound && u.uuid !in vs'[1].uidMap
  {
    hide *;
    var n := |u.uuid|;
    var v0, v1 := Alone(u, "a"), Alone(u, "b");
    AloneHolds(u, "a", n);
    AloneHolds(u, "b", n);
    ReplacedDiff(u, w);
    RefreshedIsNext(v0, [w], None, [u], [w]);
    var r := Refreshed(v0, [w], None, [u], [w]);
    vs, m, vs' := [v0, v1], Move(0, Refresh([w], None)), [r, v1.(uidMap := r.uidMap)];
    TwoNodes(v0, v1, Refresh([w], None), r, n);
    Replaced(u, w, v0);
  }
}
