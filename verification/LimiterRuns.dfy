/** Runs of one limiter: connections, drains, refreshed alive counts and refreshed users in any order. */
module LimiterRuns {
  import opened Formats
  import opened Limiter

  datatype Event =
    | Check(taguuid: string, ip: string, track: bool, now: int)
    | Drain(rows: seq<OnlineUser>)
    | SetAlive(alive: map<int, int>)
    | Update(tag: string, added: seq<UserInfo>, deleted: seq<UserInfo>)

  ghost predicate Next(s: State, e: Event, s': State) {
    match e
    case Check(taguuid, ip, track, now) => s' == Checked(s, taguuid, ip, track, now)
    case Drain(rows) => Drained(s, s', rows)
    case SetAlive(alive) => s' == s.(alive := alive)
    case Update(tag, added, deleted) => s' == WithUsers(WithoutUsers(s, tag, deleted), tag, added)
  }

  ghost predicate IsRun(ss: seq<State>, es: seq<Event>) {
    |ss| == |es| + 1 && forall i | 0 <= i < |es| :: Next(ss[i], es[i], ss[i + 1])
  }

  // ---- The device limit over a run ----

  ghost predicate Seen(s: State, ip: string) {
    ip in Ips(s.online) || ip in s.old'
  }

  /** A connection from the address is let in for a user that has not reached its device limit, or has none. */
  ghost predicate Admits(s: State, e: Event, ip: string) {
    && e.Check? && e.track && e.ip == ip && e.taguuid in s.users
    && !(0 < s.users[e.taguuid].deviceLimit <= Alive(s, s.users[e.taguuid].uid))
  }

  lemma SeenMeans(s: State, x: string)
    ensures Seen(s, x) <==> x in s.old' || exists t :: IsOnline(s, t, x)
  {
    if t :| IsOnline(s, t, x) {
      assert t in s.online && x in s.online[t];
    }
    if x in Ips(s.online) {
      var t :| t in s.online && x in s.online[t];
      assert IsOnline(s, t, x);
    }
  }

  lemma CheckOld(s: State, taguuid: string, ip: string, track: bool, now: int)
    ensures Checked(s, taguuid, ip, track, now).old'.Keys <= s.old'.Keys
  {
    hide UsersAfter, UserRate, OnlineAfter, Rejects;
  }

  lemma LetsInAdmits(s: State, e: Event, t: string, x: string)
    requires LetsIn(s, e, t, x) && !IsOnline(s, t, x) && x !in s.old'
    ensures Admits(s, e, x)
  {
  }

  lemma CheckAdmits(s: State, taguuid: string, ip: string, track: bool, now: int, x: string)
    requires Seen(Checked(s, taguuid, ip, track, now), x) && !Seen(s, x)
    ensures Admits(s, Check(taguuid, ip, track, now), x)
  {
    hide *;
    var s' := Checked(s, taguuid, ip, track, now);
    SeenMeans(s, x);
    SeenMeans(s', x);
    CheckOld(s, taguuid, ip, track, now);
    assert x !in s'.old'.Keys;
    var t :| IsOnline(s', t, x);
    CheckOnline(s, taguuid, ip, track, now, t, x);
    LetsInAdmits(s, Check(taguuid, ip, track, now), t, x);
  }

  lemma UpdateAdmitsNone(s: State, tag: string, added: seq<UserInfo>, deleted: seq<UserInfo>, x: string)
    requires Seen(WithUsers(WithoutUsers(s, tag, deleted), tag, added), x)
    ensures Seen(s, x)
  {
    WithoutUsersFields(s, tag, deleted);
    var cut := WithoutUsers(s, tag, deleted);
    WithUsersFields(cut, tag, added);
    hide WithUsers, WithoutUsers;
    if x in Ips(cut.online) {
      var t :| t in cut.online && x in cut.online[t];
      assert t in s.online && x in s.online[t];
    }
  }

  lemma StepAdmits(s: State, e: Event, s': State, x: string)
    requires Next(s, e, s') && Seen(s', x) && !Seen(s, x)
    ensures Admits(s, e, x)
  {
    match e
    case Check(taguuid, ip, track, now) => CheckAdmits(s, taguuid, ip, track, now, x);
    case Drain(rows) => DrainedIps(s, s', rows);
    case SetAlive(alive) =>
    case Update(tag, added, deleted) => UpdateAdmitsNone(s, tag, added, deleted, x);
  }

  ghost function Reported(rows: seq<OnlineUser>): set<string> {
    set r | r in rows :: r.ip
  }

  lemma SeenAfterDrain(s: State, rows: seq<OnlineUser>, s': State, x: string)
    requires Next(s, Drain(rows), s')
    ensures Seen(s', x) <==> x in Reported(rows)
    ensures x in Reported(rows) ==> Seen(s, x)
  {
    DrainedIps(s, s', rows);
  }

  lemma {:induction false} RunAdmits(ss: seq<State>, es: seq<Event>, i: nat, k: nat, x: string)
    requires IsRun(ss, es) && i < k < |ss| && es[i].Drain? && x !in Reported(es[i].rows) && Seen(ss[k], x)
    ensures exists m | i < m < k :: Admits(ss[m], es[m], x)
    decreases k
  {
    hide Next, Seen, Admits, Reported;
    if k == i + 1 {
      SeenAfterDrain(ss[i], es[i].rows, ss[k], x);
      assert false;
    } else if Seen(ss[k - 1], x) {
      RunAdmits(ss, es, i, k - 1, x);
    } else {
      StepAdmits(ss[k - 1], es[k - 1], ss[k], x);
    }
  }

  /** Where a new address comes from: in any run, an address that a round reports and an earlier one did not was
      let in between the two for a user that had not reached its device limit at that moment. */
  lemma NewAddressAdmitted(ss: seq<State>, es: seq<Event>, i: nat, j: nat, x: string)
    requires IsRun(ss, es) && i < j < |es| && es[i].Drain? && es[j].Drain?
    requires x in Reported(es[j].rows) && x !in Reported(es[i].rows)
    ensures exists m | i < m < j :: Admits(ss[m], es[m], x)
  {
    hide Next, Seen, Admits, Reported;
    SeenAfterDrain(ss[j], es[j].rows, ss[j + 1], x);
    RunAdmits(ss, es, i, j, x);
  }

  // ---- What a round reports ----

  /** The user has a device limit, and no fewer addresses alive. */
  ghost predicate AtLimit(u: UserLimit, alive: map<int, int>) {
    0 < u.deviceLimit && u.deviceLimit <= if u.uid in alive then alive[u.uid] else 0
  }

  /** A tracked connection of a known user from the address, which is online for it or remembered from the last
      round unless the user is below its device limit. */
  ghost predicate LetsIn(s: State, e: Event, t: string, x: string) {
    && e.Check? && e.track && e.taguuid == t && e.ip == x && t in s.users
    && ((t in s.online && x in s.online[t]) || x in s.old' || !AtLimit(s.users[t], s.alive))
  }

  /** The user is deleted. */
  ghost predicate TakesOut(e: Event, t: string) {
    e.Update? && t in Tags(e.tag, e.deleted)
  }

  lemma CheckOnline(s: State, taguuid: string, ip: string, track: bool, now: int, t: string, x: string)
    ensures IsOnline(Checked(s, taguuid, ip, track, now), t, x) <==>
      IsOnline(s, t, x) || LetsIn(s, Check(taguuid, ip, track, now), t, x)
  {
    hide UsersAfter, UserRate, OldAfter;
  }

  lemma UpdateOnline(s: State, tag: string, added: seq<UserInfo>, deleted: seq<UserInfo>, t: string, x: string)
    ensures IsOnline(WithUsers(WithoutUsers(s, tag, deleted), tag, added), t, x) <==>
      IsOnline(s, t, x) && t !in Tags(tag, deleted)
  {
    WithoutUsersFields(s, tag, deleted);
    WithUsersFields(WithoutUsers(s, tag, deleted), tag, added);
    hide WithUsers, WithoutUsers, Tags;
  }

  lemma StepOnline(s: State, e: Event, s': State, t: string, x: string)
    requires Next(s, e, s') && !e.Drain?
    ensures IsOnline(s', t, x) <==> LetsIn(s, e, t, x) || (IsOnline(s, t, x) && !TakesOut(e, t))
  {
    match e
    case Check(taguuid, ip, track, now) => CheckOnline(s, taguuid, ip, track, now, t, x);
    case SetAlive(alive) =>
    case Update(tag, added, deleted) => UpdateOnline(s, tag, added, deleted, t, x);
  }

  /** Let in at some step from `i` to `k`, and not taken out since. */
  ghost predicate Stays(ss: seq<State>, es: seq<Event>, i: nat, k: nat, t: string, x: string)
    requires k <= |es| < |ss|
  {
    exists m | i < m < k :: LetsIn(ss[m], es[m], t, x) && forall q | m < q < k :: !TakesOut(es[q], t)
  }

  lemma StaysStep(ss: seq<State>, es: seq<Event>, i: nat, k: nat, t: string, x: string)
    requires i < k < |es| < |ss|
    ensures Stays(ss, es, i, k + 1, t, x) <==>
      LetsIn(ss[k], es[k], t, x) || (Stays(ss, es, i, k, t, x) && !TakesOut(es[k], t))
  {
    hide LetsIn, TakesOut;
    if Stays(ss, es, i, k, t, x) && !TakesOut(es[k], t) {
      var m :| i < m < k && LetsIn(ss[m], es[m], t, x) && forall q | m < q < k :: !TakesOut(es[q], t);
      assert forall q | m < q < k + 1 :: !TakesOut(es[q], t);
    }
  }

  lemma {:induction false} OnlineExactly(ss: seq<State>, es: seq<Event>, i: nat, k: nat, t: string, x: string)
    requires IsRun(ss, es) && i < k <= |es| && es[i].Drain? && forall q | i < q < k :: !es[q].Drain?
    ensures IsOnline(ss[k], t, x) <==> Stays(ss, es, i, k, t, x)
    decreases k
  {
    hide Next, Stays, LetsIn, TakesOut, IsOnline;
    if k == i + 1 {
      NoneOnline(ss, es, i, t, x);
    } else {
      OnlineExactly(ss, es, i, k - 1, t, x);
      StaysStep(ss, es, i, k - 1, t, x);
      StepOnline(ss[k - 1], es[k - 1], ss[k], t, x);
    }
  }

  lemma NoneOnline(ss: seq<State>, es: seq<Event>, i: nat, t: string, x: string)
    requires IsRun(ss, es) && i < |es| && es[i].Drain?
    ensures !IsOnline(ss[i + 1], t, x) && !Stays(ss, es, i, i + 1, t, x)
  {
    assert Next(ss[i], es[i], ss[i + 1]);
  }

  lemma ReportedAreOnline(s: State, rows: seq<OnlineUser>, s': State, x: string)
    requires Next(s, Drain(rows), s')
    ensures x in Reported(rows) <==> exists t :: IsOnline(s, t, x)
  {
    DrainedIps(s, s', rows);
    if x in Ips(s.online) {
      var t :| t in s.online && x in s.online[t];
      assert IsOnline(s, t, x);
    }
  }

  /** The main result on devices: in any run, a round reports exactly the addresses that were let in for some
      user since the round before it, without that user being deleted afterwards. */
  lemma RoundReportsExactly(ss: seq<State>, es: seq<Event>, i: nat, j: nat, x: string)
    requires IsRun(ss, es) && i < j < |es| && es[i].Drain? && es[j].Drain? && forall q | i < q < j :: !es[q].Drain?
    ensures x in Reported(es[j].rows) <==> exists t :: Stays(ss, es, i, j, t, x)
  {
    hide Next, Reported, Stays, IsOnline;
    ReportedAreOnline(ss[j], es[j].rows, ss[j + 1], x);
    forall t ensures IsOnline(ss[j], t, x) <==> Stays(ss, es, i, j, t, x) {
      OnlineExactly(ss, es, i, j, t, x);
    }
    if t :| IsOnline(ss[j], t, x) {
      assert Stays(ss, es, i, j, t, x);
    }
    if t :| Stays(ss, es, i, j, t, x) {
      assert IsOnline(ss[j], t, x);
    }
  }

  /** So a round reports only addresses that an earlier one reported if and only if no other address was let
      in, and left in, since the round before it, which is the `d`-th event. */
  lemma RoundsShrinkExactly(ss: seq<State>, es: seq<Event>, i: nat, d: nat, j: nat)
    requires IsRun(ss, es) && i <= d < j < |es| && es[i].Drain? && es[d].Drain? && es[j].Drain?
    requires forall q | d < q < j :: !es[q].Drain?
    ensures Reported(es[j].rows) <= Reported(es[i].rows) <==>
      forall t, x | Stays(ss, es, d, j, t, x) :: x in Reported(es[i].rows)
  {
    hide Next, Reported, Stays;
    forall x ensures x in Reported(es[j].rows) <==> exists t :: Stays(ss, es, d, j, t, x) {
      RoundReportsExactly(ss, es, d, j, x);
    }
  }

  // ---- Addresses of the last round ----

  /** A tracked connection of a user with this uid comes from the address, which is not online for that user. */
  ghost predicate TakesOver(s: State, e: Event, x: string, uid: int) {
    && e.Check? && e.track && e.ip == x && e.taguuid in s.users && s.users[e.taguuid].uid == uid
    && !(e.taguuid in s.online && x in s.online[e.taguuid])
  }

  /** Since the round at i such a user has taken the address over. */
  ghost predicate TakenOver(ss: seq<State>, es: seq<Event>, i: nat, k: nat, x: string)
    requires k <= |es| < |ss| && i < |es| && es[i].Drain?
  {
    exists m | i < m < k :: LastUid(es[i].rows, x) != None && TakesOver(ss[m], es[m], x, LastUid(es[i].rows, x).value)
  }

  lemma StepRemembers(s: State, e: Event, s': State, x: string)
    requires Next(s, e, s') && !e.Drain?
    ensures x in s'.old' <==> x in s.old' && !TakesOver(s, e, x, s.old'[x])
    ensures x in s'.old' ==> s'.old'[x] == s.old'[x]
  {
    match e
    case Check(taguuid, ip, track, now) => CheckRemembers(s, taguuid, ip, track, now, x);
    case SetAlive(alive) =>
    case Update(tag, added, deleted) =>
      WithoutUsersFields(s, tag, deleted);
      WithUsersFields(WithoutUsers(s, tag, deleted), tag, added);
      hide WithUsers, WithoutUsers;
  }

  lemma CheckRemembers(s: State, taguuid: string, ip: string, track: bool, now: int, x: string)
    ensures var s', e := Checked(s, taguuid, ip, track, now), Check(taguuid, ip, track, now);
            && (x in s'.old' <==> x in s.old' && !TakesOver(s, e, x, s.old'[x]))
            && (x in s'.old' ==> s'.old'[x] == s.old'[x])
  {
    hide Checked;
    CheckedMeans(s, taguuid, ip, track, now);
    UsersAfterMeans(s, taguuid, ip, track, now);
    RejectsMeans(s, taguuid, ip, track);
  }

  lemma DrainRemembers(s: State, rows: seq<OnlineUser>, s': State, x: string)
    requires Next(s, Drain(rows), s')
    ensures LastUid(rows, x) == if x in s'.old' then Some(s'.old'[x]) else None
    ensures x in s'.old' <==> x in Reported(rows)
  {
    RemembersLast(rows, x);
    RememberedKeys(rows);
  }

  /** In any run, the addresses remembered are those the last round reported, with the uid of the last row, but for
      the ones a user with that uid has taken over since. */
  lemma {:induction false} RemembersExactly(ss: seq<State>, es: seq<Event>, i: nat, k: nat, x: string)
    requires IsRun(ss, es) && i < k <= |es| && es[i].Drain? && forall q | i < q < k :: !es[q].Drain?
    ensures x in ss[k].old' <==> x in Reported(es[i].rows) && !TakenOver(ss, es, i, k, x)
    ensures x in ss[k].old' ==> LastUid(es[i].rows, x) == Some(ss[k].old'[x])
    decreases k
  {
    hide Next, Reported, TakesOver, LastUid;
    DrainRemembers(ss[i], es[i].rows, ss[i + 1], x);
    if k > i + 1 {
      RemembersExactly(ss, es, i, k - 1, x);
      StepRemembers(ss[k - 1], es[k - 1], ss[k], x);
    }
  }

  /** The main result on connections: in any run, the address of a tracked connection of a known user is online for
      it afterwards if and only if the user is below its device limit or has none, or the address was let in for it
      since the last round and the user not deleted, or the last round reported the address and no user with the
      uid it was reported for has taken it over. */
  lemma LetInExactly(ss: seq<State>, es: seq<Event>, i: nat, k: nat, t: string, x: string, now: int)
    requires IsRun(ss, es) && i < k < |es| && es[i].Drain? && forall q | i < q < k :: !es[q].Drain?
    requires es[k] == Check(t, x, true, now) && t in ss[k].users
    ensures t in ss[k + 1].online && x in ss[k + 1].online[t] <==>
      || !AtLimit(ss[k].users[t], ss[k].alive) || Stays(ss, es, i, k, t, x)
      || (x in Reported(es[i].rows) && !TakenOver(ss, es, i, k, x))
    ensures t in ss[k + 1].online && x in ss[k + 1].online[t] <==>
      !TurnsAway(ss[k].online, ss[k].old', ss[k].users, ss[k].alive, t, x, true)
  {
    hide Reported, Stays, TakenOver, Checked;
    assert Next(ss[k], es[k], ss[k + 1]);
    RemembersExactly(ss, es, i, k, x);
    OnlineExactly(ss, es, i, k, t, x);
    CheckOnline(ss[k], t, x, true, now, t, x);
  }

  /** So a device that the last round reported gets in again, however many are alive. */
  lemma ReturningDeviceLetIn(ss: seq<State>, es: seq<Event>, i: nat, k: nat, t: string, x: string, now: int)
    requires IsRun(ss, es) && i < k < |es| && es[i].Drain? && forall q | i < q < k :: !es[q].Drain?
    requires es[k] == Check(t, x, true, now) && t in ss[k].users
    requires exists r :: r in es[i].rows && r.ip == x
    requires forall m | i < m < k :: !(es[m].Check? && es[m].ip == x)
    ensures t in ss[k + 1].online && x in ss[k + 1].online[t]
  {
    hide Stays, AtLimit, Next;
    LetInExactly(ss, es, i, k, t, x, now);
  }

  /** Every user has a device limit, and as many devices alive already. */
  ghost predicate Saturated(s: State) {
    forall t | t in s.users :: 0 < s.users[t].deviceLimit <= Alive(s, s.users[t].uid)
  }

  lemma SubsetSize<T>(a: set<T>, b: set<T>)
    requires a <= b
    ensures |a| <= |b|
  {
    assert |b| == |a| + |b - a| by { assert b == a + (b - a); }
  }

  /** So, while every user has reached the device limit, every round reports only addresses that each
      earlier round reported, and never more of them. */
  lemma RoundsShrink(ss: seq<State>, es: seq<Event>, i: nat, j: nat)
    requires IsRun(ss, es) && i < j < |es| && es[i].Drain? && es[j].Drain?
    requires forall m | i < m < j :: Saturated(ss[m])
    ensures Reported(es[j].rows) <= Reported(es[i].rows)
    ensures |Reported(es[j].rows)| <= |Reported(es[i].rows)|
  {
    hide Next, Reported;
    forall x | x in Reported(es[j].rows) ensures x in Reported(es[i].rows) {
      if x !in Reported(es[i].rows) {
        NewAddressAdmitted(ss, es, i, j, x);
      }
    }
    SubsetSize(Reported(es[j].rows), Reported(es[i].rows));
  }

  lemma DrainNobody(s: State)
    requires s.online == map[] && s.old' == map[]
    ensures Drained(s, s, [])
  {
    assert Lists(s.online, []) && Rows(s.online, []) == [];
    assert s == s.(online := map[], old' := Remembered([]));
  }

  lemma DrainOne(s: State, t: string, ip: string, uid: int)
    requires s.online == map[t := map[ip := uid]]
    ensures Drained(s, s.(online := map[], old' := map[ip := uid]), [OnlineUser(uid, ip)])
  {
    var row := OnlineUser(uid, ip);
    var entries := [(t, ip)];
    assert Lists(s.online, entries) by { assert entries[0] in entries; }
    assert Rows(s.online, entries) == [row];
    assert [row][..0] == [];
    assert Remembered([row]) == map[ip := uid];
  }

  /** Below the limit a round can report an address no earlier round did. */
  lemma RoundsGrowBelowTheLimit()
    ensures exists ss: seq<State>, es: seq<Event> ::
      IsRun(ss, es) && |es| == 3 && es[0] == Drain([]) && es[2].Drain? && |es[2].rows| == 1
  {
    hide Drained;
    var u := UserLimit(7, 0, 1, 0, 0, false);
    var s := Fresh(0, map[]).(users := map["t|a" := u]);
    var s1 := Checked(s, "t|a", "::1", true, 0);
    assert !Rejects(s, "t|a", "::1", true);
    assert s1.online == map["t|a" := map["::1" := 7]];
    var row := OnlineUser(7, "::1");
    var s2 := s1.(online := map[], old' := map["::1" := 7]);
    DrainNobody(s);
    DrainOne(s1, "t|a", "::1", 7);
    hide Checked, Rejects, Fresh;
    var ss, es := [s, s, s1, s2], [Drain([]), Check("t|a", "::1", true, 0), Drain([row])];
    assert IsRun(ss, es);
  }

  // ---- No user without an address ----

  ghost predicate NoEmptyEntry(s: State) {
    forall t | t in s.online :: s.online[t] != map[]
  }

  /** In every reachable state a user listed as online has an address. */
  lemma {:induction false} NoEmptyEntryInRuns(ss: seq<State>, es: seq<Event>, k: nat)
    requires IsRun(ss, es) && NoEmptyEntry(ss[0]) && k < |ss|
    ensures NoEmptyEntry(ss[k])
  {
    if k > 0 {
      NoEmptyEntryInRuns(ss, es, k - 1);
      StepKeepsNoEmptyEntry(ss[k - 1], es[k - 1], ss[k]);
    }
  }

  lemma StepKeepsNoEmptyEntry(s: State, e: Event, s': State)
    requires Next(s, e, s') && NoEmptyEntry(s)
    ensures NoEmptyEntry(s')
  {
    match e
    case Check(taguuid, ip, track, now) => CheckKeepsNoEmptyEntry(s, taguuid, ip, track, now);
    case Drain(rows) =>
    case SetAlive(alive) =>
    case Update(tag, added, deleted) =>
      hide NoEmptyEntry;
      UpdateKeepsNoEmptyEntry(s, tag, added, deleted);
  }

  lemma CheckKeepsNoEmptyEntry(s: State, taguuid: string, ip: string, track: bool, now: int)
    requires NoEmptyEntry(s)
    ensures NoEmptyEntry(Checked(s, taguuid, ip, track, now))
  {
    var s' := Checked(s, taguuid, ip, track, now);
    if s'.online != s.online {
      assert ip in s'.online[taguuid];
    }
  }

  lemma UpdateKeepsNoEmptyEntry(s: State, tag: string, added: seq<UserInfo>, deleted: seq<UserInfo>)
    requires NoEmptyEntry(s)
    ensures NoEmptyEntry(WithUsers(WithoutUsers(s, tag, deleted), tag, added))
  {
    WithoutUsersFields(s, tag, deleted);
    WithUsersFields(WithoutUsers(s, tag, deleted), tag, added);
  }
}
