/** The user limiter of limiter/limiter.go: who may connect from how many addresses, and at what rate.

    `State` is the value of a limiter's fields; the functions over it say what each operation makes
    of them, and the class is proved against those functions. */
module Limiter {
  import opened Formats

  datatype UserLimit = UserLimit(
    uid: int, speedLimit: int, deviceLimit: int, dynamicSpeedLimit: int, expireTime: int, overLimit: bool)

  /** A token bucket; filling and draining it is not part of this model. */
  datatype Bucket = Bucket(rate: int)

  datatype OnlineUser = OnlineUser(uid: int, ip: string)

  datatype State = State(
    speedLimit: int,
    online: map<string, map<string, int>>,   // tagged uuid, address -> uid
    old': map<string, int>,                  // address of the previous round -> uid
    uuidToUid: map<string, int>,
    users: map<string, UserLimit>,           // by tagged uuid
    buckets: map<string, Bucket>,            // by tagged uuid
    alive: map<int, int>)                    // uid -> addresses the panel counts

  // ---- Rates ----

  /** determineSpeedLimit of limiter/dynamic.go. */
  function DetermineSpeedLimit(limit1: int, limit2: int): int {
    if limit1 == 0 || limit2 == 0 then
      if limit1 > limit2 then limit1 else if limit1 < limit2 then limit2 else 0
    else
      if limit1 > limit2 then limit2 else limit1
  }

  /** The least of the two limits that limits at all, 0 when neither does. */
  function LeastPositive(a: int, b: int): int {
    if a <= 0 && b <= 0 then 0 else if a <= 0 then b else if b <= 0 then a else if a < b then a else b
  }

  /** A negative limit is taken for one exactly when the other limit is not 0. */
  lemma DetermineSpeedLimitExactly(a: int, b: int)
    ensures DetermineSpeedLimit(a, b) == LeastPositive(a, b) <==> (a >= 0 || b == 0) && (b >= 0 || a == 0)
  {
    if a < 0 && b > 0 { assert DetermineSpeedLimit(a, b) == a; }
  }

  const TWO_TO_THE_63: int := 0x8000_0000_0000_0000

  /** The value of a 64-bit signed integer after an operation whose exact result is `n`. */
  function Wrap64(n: int): (r: int)
    ensures -TWO_TO_THE_63 <= r < TWO_TO_THE_63
  {
    (n + TWO_TO_THE_63) % (2 * TWO_TO_THE_63) - TWO_TO_THE_63
  }

  /** Go's division rounds toward zero. */
  function Eighth(n: int): int {
    if n >= 0 then n / 8 else -(-n / 8)
  }

  /** Bytes a second for a limit in megabits a second, in 64-bit arithmetic. */
  function Rate(limit: int): int {
    Eighth(Wrap64(limit * 1000000))
  }

  /** The rate is the one meant exactly as long as the product fits. */
  lemma RateExactly(limit: nat)
    ensures Rate(limit) == 125000 * limit <==> limit * 1000000 < TWO_TO_THE_63
  {
    var n := limit * 1000000;
    if n < TWO_TO_THE_63 {
      assert n / 8 == 125000 * limit;
    } else {
      assert Rate(limit) <= TWO_TO_THE_63 / 8 - 1 < 125000 * limit;
    }
  }

  /** Beyond that, and for negative limits, the product wraps around; the division leaves no rest. */
  lemma RateWraps(limit: int)
    ensures (limit * 1000000 - 8 * Rate(limit)) % 0x1_0000_0000_0000_0000 == 0
    ensures -0x8000_0000_0000_0000 <= 8 * Rate(limit) < 0x8000_0000_0000_0000
  {
    var n := limit * 1000000;
    var k := (n + TWO_TO_THE_63) / (2 * TWO_TO_THE_63);
    var w := Wrap64(n);
    assert w == n - k * (2 * TWO_TO_THE_63);
    assert w == 8 * (limit * 125000 - k * 0x2000_0000_0000_0000);
  }

  /** Beside a limit of zero the greater of the two counts, and otherwise the lesser. */
  lemma DetermineSpeedLimitMeans(a: int, b: int)
    ensures var r := DetermineSpeedLimit(a, b); r == a || r == b
    ensures a * b != 0 ==> DetermineSpeedLimit(a, b) <= a && DetermineSpeedLimit(a, b) <= b
    ensures a * b == 0 ==> DetermineSpeedLimit(a, b) >= a && DetermineSpeedLimit(a, b) >= b
  {
  }

  // ---- CheckLimit ----

  const MAPPED_PREFIX: string := "::ffff:"

  function TrimMapped(ip: string): string {
    if MAPPED_PREFIX <= ip then ip[|MAPPED_PREFIX|..] else ip
  }

  function Alive(s: State, uid: int): int {
    if uid in s.alive then s.alive[uid] else 0
  }

  predicate IsOnline(s: State, taguuid: string, ip: string) {
    taguuid in s.online && ip in s.online[taguuid]
  }

  /** The rule for turning a connection away, `ip` being the trimmed address. */
  predicate Rejects(s: State, taguuid: string, ip: string, track: bool) {
    || taguuid !in s.users
    || (&& track && !IsOnline(s, taguuid, ip) && ip !in s.old'
        && 0 < s.users[taguuid].deviceLimit <= Alive(s, s.users[taguuid].uid))
  }

  predicate Expired(u: UserLimit, now: int) {
    u.expireTime != 0 && u.expireTime < now
  }

  /** The user table after an expired dynamic limit was dealt with: without a limit of its own the
      user's entry goes. */
  function UsersAfter(s: State, taguuid: string, now: int): map<string, UserLimit>
    requires taguuid in s.users
  {
    var u := s.users[taguuid];
    if !Expired(u, now) then s.users
    else if u.speedLimit != 0 then s.users[taguuid := u.(dynamicSpeedLimit := 0, expireTime := 0)]
    else s.users - {taguuid}
  }

  function UserRate(s: State, taguuid: string, now: int): int
    requires taguuid in s.users
  {
    var u := s.users[taguuid];
    Rate(DetermineSpeedLimit(s.speedLimit,
      if Expired(u, now) then u.speedLimit else DetermineSpeedLimit(u.speedLimit, u.dynamicSpeedLimit)))
  }

  function OnlineAfter(s: State, taguuid: string, ip: string): map<string, map<string, int>>
    requires taguuid in s.users
  {
    if IsOnline(s, taguuid, ip) then s.online
    else
      var ips := if taguuid in s.online then s.online[taguuid] else map[];
      s.online[taguuid := ips[ip := s.users[taguuid].uid]]
  }

  /** An address seen for the user in the previous round is handed over to the current one. */
  function OldAfter(s: State, taguuid: string, ip: string): map<string, int>
    requires taguuid in s.users
  {
    if !IsOnline(s, taguuid, ip) && ip in s.old' && s.old'[ip] == s.users[taguuid].uid then s.old' - {ip}
    else s.old'
  }

  function Checked(s: State, taguuid: string, ip: string, track: bool, now: int): State {
    if taguuid !in s.users then s
    else
      var s1 := s.(users := UsersAfter(s, taguuid, now));
      if Rejects(s, taguuid, ip, track) then s1
      else
        var rate := UserRate(s, taguuid, now);
        s1.(online := if track then OnlineAfter(s, taguuid, ip) else s.online,
            old' := if track then OldAfter(s, taguuid, ip) else s.old',
            buckets := if rate > 0 && taguuid !in s.buckets then s.buckets[taguuid := Bucket(rate)] else s.buckets)
  }

  // ---- GetOnlineDevice ----

  ghost function Ips(online: map<string, map<string, int>>): set<string> {
    set t, ip | t in online && ip in online[t] :: ip
  }

  /** `entries` lists every (tagged uuid, address) of `online` exactly once. */
  ghost predicate Lists(online: map<string, map<string, int>>, entries: seq<(string, string)>) {
    && (forall i | 0 <= i < |entries| :: entries[i].0 in online && entries[i].1 in online[entries[i].0])
    && (forall t, ip | t in online && ip in online[t] :: (t, ip) in entries)
    && (forall i, j | 0 <= i < j < |entries| :: entries[i] != entries[j])
  }

  function Rows(online: map<string, map<string, int>>, entries: seq<(string, string)>): (rows: seq<OnlineUser>)
    requires forall i | 0 <= i < |entries| :: entries[i].0 in online && entries[i].1 in online[entries[i].0]
    ensures |rows| == |entries|
  {
    seq(|entries|, i requires 0 <= i < |entries| => OnlineUser(online[entries[i].0][entries[i].1], entries[i].1))
  }

  /** The previous-round map after storing the rows one after the other. */
  function Remembered(rows: seq<OnlineUser>): map<string, int> {
    if rows == [] then map[]
    else
      var last := rows[|rows| - 1];
      Remembered(rows[..|rows| - 1])[last.ip := last.uid]
  }

  /** One drain: a row for every online entry in the order of the map iteration, nobody online any
      more, and the drained addresses remembered. */
  ghost predicate Drained(s: State, s': State, rows: seq<OnlineUser>) {
    exists entries :: Lists(s.online, entries) && rows == Rows(s.online, entries) &&
      s' == s.(online := map[], old' := Remembered(rows))
  }

  ghost function Entries(online: map<string, map<string, int>>): set<(string, string)> {
    set t, ip | t in online && ip in online[t] :: (t, ip)
  }

  /** `Lists` with the entries of `left` still to come. */
  ghost predicate Covers(online: map<string, map<string, int>>, left: set<(string, string)>,
      entries: seq<(string, string)>) {
    && (forall i | 0 <= i < |entries| :: entries[i].0 in online && entries[i].1 in online[entries[i].0])
    && (forall e | e in Entries(online) :: e in entries <==> e !in left)
    && (forall i, j | 0 <= i < j < |entries| :: entries[i] != entries[j])
  }

  lemma CoversOne(online: map<string, map<string, int>>, left: set<(string, string)>, entries: seq<(string, string)>,
      t: string, ip: string)
    requires Covers(online, left, entries) && (t, ip) in left && t in online && ip in online[t]
    ensures Covers(online, left - {(t, ip)}, entries + [(t, ip)])
    ensures Rows(online, entries + [(t, ip)]) == Rows(online, entries) + [OnlineUser(online[t][ip], ip)]
  {
    var e := (t, ip);
    assert e in Entries(online);
    forall i | 0 <= i < |entries| ensures entries[i] != e {
      assert entries[i] in entries;
    }
  }

  lemma CoversAll(online: map<string, map<string, int>>, entries: seq<(string, string)>)
    requires Covers(online, {}, entries)
    ensures Lists(online, entries)
  {
    forall t, ip | t in online && ip in online[t] ensures (t, ip) in entries {
      assert (t, ip) in Entries(online);
    }
  }

  lemma RememberedSnoc(rows: seq<OnlineUser>, r: OnlineUser)
    ensures Remembered(rows + [r]) == Remembered(rows)[r.ip := r.uid]
  {
    assert (rows + [r])[..|rows|] == rows;
  }

  lemma {:induction false} RememberedKeys(rows: seq<OnlineUser>)
    ensures Remembered(rows).Keys == set r | r in rows :: r.ip
  {
    if rows != [] {
      var init, last := rows[..|rows| - 1], rows[|rows| - 1];
      RememberedKeys(init);
      assert rows == init + [last];
      assert (set r | r in rows :: r.ip) == (set r | r in init :: r.ip) + {last.ip};
    }
  }

  /** The uid of the last row with the address. */
  function LastUid(rows: seq<OnlineUser>, ip: string): Option<int> {
    if rows == [] then None
    else if rows[|rows| - 1].ip == ip then Some(rows[|rows| - 1].uid)
    else LastUid(rows[..|rows| - 1], ip)
  }

  /** The uid remembered with an address is that of its last row. */
  lemma {:induction false} RemembersLast(rows: seq<OnlineUser>, ip: string)
    ensures LastUid(rows, ip) == if ip in Remembered(rows) then Some(Remembered(rows)[ip]) else None
    ensures LastUid(rows, ip).Some? <==> exists i :: 0 <= i < |rows| && rows[i].ip == ip
  {
    if rows != [] {
      var init := rows[..|rows| - 1];
      RemembersLast(init, ip);
      assert forall i | 0 <= i < |init| :: rows[i] == init[i];
    }
  }

  /** The addresses of the rows, the remembered addresses and the addresses that were online are
      one and the same set, and there are as many rows as online entries. */
  lemma DrainedIps(s: State, s': State, rows: seq<OnlineUser>)
    requires Drained(s, s', rows)
    ensures (set r | r in rows :: r.ip) == s'.old'.Keys == Ips(s.online)
    ensures Ips(s'.online) == {}
  {
    RememberedKeys(rows);
    var entries: seq<(string, string)> :| Lists(s.online, entries) && rows == Rows(s.online, entries) &&
      s' == s.(online := map[], old' := Remembered(rows));
    RowsIps(s.online, entries);
  }

  lemma RowsIps(online: map<string, map<string, int>>, entries: seq<(string, string)>)
    requires Lists(online, entries)
    ensures (set r | r in Rows(online, entries) :: r.ip) == Ips(online)
  {
    var rows := Rows(online, entries);
    forall ip | ip in Ips(online) ensures exists r :: r in rows && r.ip == ip {
      var t :| t in online && ip in online[t];
      assert (t, ip) in entries;
      var i :| 0 <= i < |entries| && entries[i] == (t, ip);
      assert rows[i] in rows;
    }
    forall r | r in rows ensures r.ip in Ips(online) {
      var i :| 0 <= i < |rows| && rows[i] == r;
      assert entries[i].1 in online[entries[i].0];
    }
  }

  // ---- AddLimiter and UpdateUser ----

  function NewLimit(u: UserInfo): UserLimit {
    UserLimit(u.id, u.speedLimit, u.deviceLimit, 0, 0, false)
  }

  function WithUser(s: State, tag: string, u: UserInfo): State {
    s.(users := s.users[UserTag(tag, u.uuid) := NewLimit(u)], uuidToUid := s.uuidToUid[u.uuid := u.id])
  }

  function WithoutUser(s: State, tag: string, u: UserInfo): State {
    var t := UserTag(tag, u.uuid);
    s.(users := s.users - {t}, online := s.online - {t}, buckets := s.buckets - {t},
       uuidToUid := s.uuidToUid - {u.uuid}, alive := s.alive - {u.id})
  }

  function WithUsers(s: State, tag: string, us: seq<UserInfo>): State {
    if us == [] then s else WithUser(WithUsers(s, tag, us[..|us| - 1]), tag, us[|us| - 1])
  }

  function WithoutUsers(s: State, tag: string, us: seq<UserInfo>): State {
    if us == [] then s else WithoutUser(WithoutUsers(s, tag, us[..|us| - 1]), tag, us[|us| - 1])
  }

  function Fresh(speedLimit: int, alive: map<int, int>): State {
    State(speedLimit, map[], map[], map[], map[], map[], alive)
  }

  // ---- What adding and deleting users does to each field ----

  ghost function Tags(tag: string, us: seq<UserInfo>): set<string> {
    set u | u in us :: UserTag(tag, u.uuid)
  }

  lemma Snoc(us: seq<UserInfo>, tag: string)
    requires us != []
    ensures var init, last := us[..|us| - 1], us[|us| - 1];
            && Uuids(us) == Uuids(init) + {last.uuid} && Tags(tag, us) == Tags(tag, init) + {UserTag(tag, last.uuid)}
            && (set u | u in us :: u.id) == (set u | u in init :: u.id) + {last.id}
  {
    var init, last := us[..|us| - 1], us[|us| - 1];
    assert us == init + [last];
  }

  lemma {:induction false} WithoutUsersFields(s: State, tag: string, us: seq<UserInfo>)
    ensures var r := WithoutUsers(s, tag, us);
            && r.users == s.users - Tags(tag, us) && r.online == s.online - Tags(tag, us)
            && r.buckets == s.buckets - Tags(tag, us) && r.uuidToUid == s.uuidToUid - Uuids(us)
            && r.alive == s.alive - (set u | u in us :: u.id)
            && r.old' == s.old' && r.speedLimit == s.speedLimit
  {
    if us != [] {
      WithoutUsersFields(s, tag, us[..|us| - 1]);
      Snoc(us, tag);
    }
  }

  lemma {:induction false} WithUsersFields(s: State, tag: string, us: seq<UserInfo>)
    ensures var r := WithUsers(s, tag, us); r == s.(users := r.users, uuidToUid := r.uuidToUid)
    ensures WithUsers(s, tag, us).users.Keys == s.users.Keys + Tags(tag, us)
    ensures WithUsers(s, tag, us).uuidToUid.Keys == s.uuidToUid.Keys + Uuids(us)
    ensures forall t | t in s.users && t !in Tags(tag, us) :: WithUsers(s, tag, us).users[t] == s.users[t]
    ensures forall x | x in s.uuidToUid && x !in Uuids(us) :: WithUsers(s, tag, us).uuidToUid[x] == s.uuidToUid[x]
  {
    if us != [] {
      WithUsersFields(s, tag, us[..|us| - 1]);
      Snoc(us, tag);
    }
  }

  /** Of several users with one uuid the last is stored; with distinct uuids every one is. */
  lemma {:induction false} WithUsersStores(s: State, tag: string, us: seq<UserInfo>, k: nat)
    requires IsLast(us, k)
    ensures Tags(tag, us) <= WithUsers(s, tag, us).users.Keys && Uuids(us) <= WithUsers(s, tag, us).uuidToUid.Keys
    ensures UserTag(tag, us[k].uuid) in Tags(tag, us) && us[k].uuid in Uuids(us)
    ensures WithUsers(s, tag, us).users[UserTag(tag, us[k].uuid)] == NewLimit(us[k])
    ensures WithUsers(s, tag, us).uuidToUid[us[k].uuid] == us[k].id
  {
    WithUsersFields(s, tag, us);
    assert us[k] in us;
    var n := |us| - 1;
    if k < n {
      WithUsersStores(s, tag, us[..n], k);
      UserTagInjective(tag, us[n].uuid, us[k].uuid);
    }
  }

  /** The entries of a list: user and limits are those of the last user with the uuid, and no dynamic limit. */
  ghost predicate ListEntered(users: map<string, UserLimit>, tag: string, us: seq<UserInfo>) {
    forall k | IsLast(us, k) ::
      var t, u := tag + "|" + us[k].uuid, us[k];
      && t in users && users[t].uid == u.id && users[t].speedLimit == u.speedLimit
      && users[t].deviceLimit == u.deviceLimit && users[t].dynamicSpeedLimit == 0 && users[t].expireTime == 0
      && !users[t].overLimit
  }

  lemma EntersList(s: State, tag: string, us: seq<UserInfo>)
    ensures ListEntered(WithUsers(s, tag, us).users, tag, us)
    ensures forall k | IsLast(us, k) ::
      us[k].uuid in WithUsers(s, tag, us).uuidToUid && WithUsers(s, tag, us).uuidToUid[us[k].uuid] == us[k].id
  {
    forall k | IsLast(us, k)
      ensures var r, t := WithUsers(s, tag, us), tag + "|" + us[k].uuid;
              && t in r.users && r.users[t] == UserLimit(us[k].id, us[k].speedLimit, us[k].deviceLimit, 0, 0, false)
              && us[k].uuid in r.uuidToUid && r.uuidToUid[us[k].uuid] == us[k].id
    {
      WithUsersStores(s, tag, us, k);
    }
  }

  lemma FreshMeans(speedLimit: int, alive: map<int, int>)
    ensures Fresh(speedLimit, alive) == State(speedLimit, map[], map[], map[], map[], map[], alive)
  {
  }

  lemma FreshEntered(speedLimit: int, alive: map<int, int>, tag: string, us: seq<UserInfo>)
    ensures var r := WithUsers(Fresh(speedLimit, alive), tag, us);
            && r.online == map[] && r.old' == map[] && r.buckets == map[] && r.alive == alive
            && ListEntered(r.users, tag, us) && r.users.Keys == Tags(tag, us) && r.uuidToUid.Keys == Uuids(us)
  {
    EntersList(Fresh(speedLimit, alive), tag, us);
    WithUsersFields(Fresh(speedLimit, alive), tag, us);
  }

  lemma UpdateMeans(s: State, tag: string, added: seq<UserInfo>, deleted: seq<UserInfo>)
    ensures var r, cut, came := WithUsers(WithoutUsers(s, tag, deleted), tag, added), Tags(tag, deleted),
                              Tags(tag, added);
            && ListEntered(r.users, tag, added) && r.users.Keys == s.users.Keys - cut + came
            && (forall t | t in s.users && t !in cut && t !in came :: r.users[t] == s.users[t])
            && r.online == s.online - cut && r.buckets == s.buckets - cut
            && r.uuidToUid.Keys == s.uuidToUid.Keys - Uuids(deleted) + Uuids(added)
            && r.alive == s.alive - (set u | u in deleted :: u.id)
  {
    var mid := WithoutUsers(s, tag, deleted);
    WithoutUsersFields(s, tag, deleted);
    WithUsersFields(mid, tag, added);
    EntersList(mid, tag, added);
    hide WithUsers, WithoutUsers, Tags, Uuids, ListEntered;
  }

  /** The prefix of an IPv4 address mapped to IPv6 goes. */
  lemma TrimMeans(address: string)
    ensures TrimMapped("::ffff:" + address) == address
    ensures !("::ffff:" <= address) ==> TrimMapped(address) == address
  {
  }

  /** A connection is rejected when the user is not known, or when the address is new for it, the address was not in
      the last round, and the device limit is reached. */
  ghost predicate TurnsAway(online: map<string, map<string, int>>, old': map<string, int>,
      users: map<string, UserLimit>, alive: map<int, int>, taguuid: string, ip: string, track: bool) {
    if taguuid !in users then true
    else
      var u := users[taguuid];
      && track && !(taguuid in online && ip in online[taguuid]) && ip !in old'
      && u.deviceLimit > 0 && (if u.uid in alive then alive[u.uid] else 0) >= u.deviceLimit
  }

  lemma RejectsMeans(s: State, taguuid: string, ip: string, track: bool)
    ensures Rejects(s, taguuid, ip, track) <==> TurnsAway(s.online, s.old', s.users, s.alive, taguuid, ip, track)
  {
  }

  /** The address is now online for the user, under its uid, and nothing else is new; if it was remembered for that
      uid, it is remembered no more. */
  ghost predicate ComesOnline(online: map<string, map<string, int>>, old': map<string, int>, uid: int,
      taguuid: string, ip: string, online': map<string, map<string, int>>, old'': map<string, int>) {
    if taguuid in online && ip in online[taguuid] then online' == online && old'' == old'
    else
      && taguuid in online' && ip in online'[taguuid] && online'[taguuid][ip] == uid
      && online' - {taguuid} == online - {taguuid}
      && online'[taguuid] - {ip} == (if taguuid in online then online[taguuid] else map[])
      && old'' == (if ip in old' && old'[ip] == uid then old' - {ip} else old')
  }

  /** What a connection leaves of the fields. */
  lemma CheckedMeans(s: State, taguuid: string, ip: string, track: bool, now: int)
    ensures var r := Checked(s, taguuid, ip, track, now);
            && r.speedLimit == s.speedLimit && r.uuidToUid == s.uuidToUid && r.alive == s.alive
            && (Rejects(s, taguuid, ip, track) ==> r.online == s.online && r.old' == s.old' && r.buckets == s.buckets)
            && (!track ==> r.online == s.online && r.old' == s.old')
    ensures track && !Rejects(s, taguuid, ip, track) ==>
      ComesOnline(s.online, s.old', s.users[taguuid].uid, taguuid, ip,
                  Checked(s, taguuid, ip, track, now).online, Checked(s, taguuid, ip, track, now).old')
  {
    hide UserRate, UsersAfter, OnlineAfter, OldAfter, ComesOnline;
    if taguuid in s.users {
      OnlineMeans(s, taguuid, ip);
    }
  }

  lemma OnlineMeans(s: State, taguuid: string, ip: string)
    requires taguuid in s.users
    ensures ComesOnline(s.online, s.old', s.users[taguuid].uid, taguuid, ip, OnlineAfter(s, taguuid, ip),
                        OldAfter(s, taguuid, ip))
  {
    var ips := if taguuid in s.online then s.online[taguuid] else map[];
    assert ip !in ips ==> ips[ip := s.users[taguuid].uid] - {ip} == ips;
  }

  /** An expired dynamic limit is taken off, and the entry of a user without another one with it. */
  lemma UsersAfterMeans(s: State, taguuid: string, ip: string, track: bool, now: int)
    ensures taguuid !in s.users ==> Checked(s, taguuid, ip, track, now) == s
    ensures taguuid in s.users ==> var u := s.users[taguuid];
      Checked(s, taguuid, ip, track, now).users == if u.expireTime == 0 || u.expireTime >= now then s.users
        else if u.speedLimit == 0 then s.users - {taguuid}
        else s.users[taguuid := UserLimit(u.uid, u.speedLimit, u.deviceLimit, 0, 0, u.overLimit)]
  {
    hide UserRate, OnlineAfter, OldAfter, Rejects;
  }

  lemma UserRateMeans(s: State, taguuid: string, now: int)
    requires taguuid in s.users
    ensures var u := s.users[taguuid];
            var expired := u.expireTime != 0 && u.expireTime < now;
            var own := if expired then u.speedLimit else DetermineSpeedLimit(u.speedLimit, u.dynamicSpeedLimit);
            UserRate(s, taguuid, now) == Rate(DetermineSpeedLimit(s.speedLimit, own))
  {
  }

  // ---- The class ----

  class Limiter {
    const speedLimit: int
    var userOnlineIP: map<string, map<string, int>>
    var oldUserOnline: map<string, int>
    var uuidToUid: map<string, int>
    var userLimitInfo: map<string, UserLimit>
    var speedLimiter: map<string, Bucket>
    var aliveList: map<int, int>

    function Value(): State
      reads this
    {
      State(speedLimit, userOnlineIP, oldUserOnline, uuidToUid, userLimitInfo, speedLimiter, aliveList)
    }

    /** AddLimiter, without the registration under its tag. */
    constructor (tag: string, nodeLimit: int, users: seq<UserInfo>, alive: map<int, int>)
      ensures Value() == WithUsers(Fresh(nodeLimit, alive), tag, users) && speedLimit == nodeLimit
      ensures userOnlineIP == map[] && oldUserOnline == map[] && speedLimiter == map[] && aliveList == alive
      ensures ListEntered(userLimitInfo, tag, users) && userLimitInfo.Keys == Tags(tag, users)
      ensures uuidToUid.Keys == Uuids(users)
    {
      hide *;
      FreshEntered(nodeLimit, alive, tag, users);
      speedLimit := nodeLimit;
      userOnlineIP, oldUserOnline, uuidToUid := map[], map[], map[];
      userLimitInfo, speedLimiter, aliveList := map[], map[], alive;
      new;
      FieldsAre();
      FreshMeans(nodeLimit, alive);
      EnterUsers(tag, users);
      FieldsAre();
    }

    method UpdateUser(tag: string, added: seq<UserInfo>, deleted: seq<UserInfo>)
      modifies this`userLimitInfo, this`userOnlineIP, this`speedLimiter, this`uuidToUid, this`aliveList
      ensures Value() == WithUsers(WithoutUsers(old(Value()), tag, deleted), tag, added)
      ensures ListEntered(userLimitInfo, tag, added)
      ensures userLimitInfo.Keys == old(userLimitInfo).Keys - Tags(tag, deleted) + Tags(tag, added)
      ensures forall t | t in old(userLimitInfo) && t !in Tags(tag, deleted) && t !in Tags(tag, added) ::
        userLimitInfo[t] == old(userLimitInfo)[t]
      ensures userOnlineIP == old(userOnlineIP) - Tags(tag, deleted)
      ensures speedLimiter == old(speedLimiter) - Tags(tag, deleted)
      ensures uuidToUid.Keys == old(uuidToUid).Keys - Uuids(deleted) + Uuids(added)
      ensures aliveList == old(aliveList) - (set u | u in deleted :: u.id)
    {
      hide *;
      FieldsAre();
      UpdateMeans(Value(), tag, added, deleted);
      RemoveUsers(tag, deleted);
      EnterUsers(tag, added);
      FieldsAre();
    }

    lemma FieldsAre()
      ensures var v := Value();
              && v.speedLimit == speedLimit && v.online == userOnlineIP && v.old' == oldUserOnline
              && v.uuidToUid == uuidToUid && v.users == userLimitInfo && v.buckets == speedLimiter
              && v.alive == aliveList
    {
    }

    /** The first loop of UpdateUser. */
    method RemoveUsers(tag: string, deleted: seq<UserInfo>)
      modifies this`userLimitInfo, this`userOnlineIP, this`speedLimiter, this`uuidToUid, this`aliveList
      ensures Value() == WithoutUsers(old(Value()), tag, deleted)
    {
      for i := 0 to |deleted|
        invariant Value() == WithoutUsers(old(Value()), tag, deleted[..i])
      {
        assert deleted[..i + 1][..i] == deleted[..i];
        var t := UserTag(tag, deleted[i].uuid);
        userLimitInfo := userLimitInfo - {t};
        userOnlineIP := userOnlineIP - {t};
        speedLimiter := speedLimiter - {t};
        uuidToUid := uuidToUid - {deleted[i].uuid};
        aliveList := aliveList - {deleted[i].id};
      }
      assert deleted[..|deleted|] == deleted;
    }

    /** The second, and that of AddLimiter. */
    method EnterUsers(tag: string, added: seq<UserInfo>)
      modifies this`userLimitInfo, this`uuidToUid
      ensures Value() == WithUsers(old(Value()), tag, added)
    {
      for i := 0 to |added|
        invariant Value() == WithUsers(old(Value()), tag, added[..i])
      {
        assert added[..i + 1][..i] == added[..i];
        userLimitInfo := userLimitInfo[UserTag(tag, added[i].uuid) := NewLimit(added[i])];
        uuidToUid := uuidToUid[added[i].uuid := added[i].id];
      }
      assert added[..|added|] == added;
    }

    /** The arguments isTcp and noSSUDP of the source: the former is not used, the latter is `track`. */
    method CheckLimit(taguuid: string, address: string, track: bool, now: int)
      returns (bucket: Option<Bucket>, reject: bool)
      modifies this
      ensures var ip := TrimMapped(address);
              && reject == Rejects(old(Value()), taguuid, ip, track)
              && Value() == Checked(old(Value()), taguuid, ip, track, now)
      ensures reject ==> bucket == None
      ensures !reject ==>
        bucket == if old(UserRate(Value(), taguuid, now)) > 0 then Some(speedLimiter[taguuid]) else None
      ensures reject <==>
        old(TurnsAway(userOnlineIP, oldUserOnline, userLimitInfo, aliveList, taguuid, TrimMapped(address), track))
      ensures track && !reject ==>
        ComesOnline(old(userOnlineIP), old(oldUserOnline), old(userLimitInfo)[taguuid].uid, taguuid,
                    TrimMapped(address), userOnlineIP, oldUserOnline)
      ensures reject || !track ==> userOnlineIP == old(userOnlineIP) && oldUserOnline == old(oldUserOnline)
      ensures aliveList == old(aliveList) && uuidToUid == old(uuidToUid)
    {
      hide *;
      FieldsAre();
      var ip := TrimMapped(address);
      RejectsMeans(Value(), taguuid, ip, track);
      CheckedMeans(Value(), taguuid, ip, track, now);
      bucket, reject := CheckTrimmed(taguuid, ip, track, now);
      FieldsAre();
    }

    /** The rest of CheckLimit. */
    method CheckTrimmed(taguuid: string, ip: string, track: bool, now: int)
      returns (bucket: Option<Bucket>, reject: bool)
      modifies this
      ensures reject == Rejects(old(Value()), taguuid, ip, track)
      ensures Value() == Checked(old(Value()), taguuid, ip, track, now)
      ensures reject ==> bucket == None
      ensures !reject ==>
        bucket == if old(UserRate(Value(), taguuid, now)) > 0 then Some(speedLimiter[taguuid]) else None
    {
      hide OnlineAfter, OldAfter, IsOnline, Alive, UsersAfter, UserRate;
      ghost var s := Value();
      if taguuid !in userLimitInfo {
        return None, true;
      }
      var deviceLimit, uid := userLimitInfo[taguuid].deviceLimit, userLimitInfo[taguuid].uid;
      var limit := CurrentRate(taguuid, now);
      if track {
        var over := Track(taguuid, ip, uid, deviceLimit, s);
        if over {
          return None, true;
        }
      }
      if limit > 0 {
        if taguuid in speedLimiter {
          return Some(speedLimiter[taguuid]), false;
        }
        speedLimiter := speedLimiter[taguuid := Bucket(limit)];
        return Some(Bucket(limit)), false;
      }
      return None, false;
    }

    /** The speed-limit part of CheckLimit, which also deals with an expired dynamic limit. */
    method CurrentRate(taguuid: string, now: int) returns (limit: int)
      requires taguuid in userLimitInfo
      modifies this`userLimitInfo
      ensures userLimitInfo == UsersAfter(old(Value()), taguuid, now)
      ensures limit == old(UserRate(Value(), taguuid, now))
    {
      var userLimit := 0;
      var u := userLimitInfo[taguuid];
      if u.expireTime < now && u.expireTime != 0 {
        if u.speedLimit != 0 {
          userLimit := u.speedLimit;
          userLimitInfo := userLimitInfo[taguuid := u.(dynamicSpeedLimit := 0, expireTime := 0)];
        } else {
          userLimitInfo := userLimitInfo - {taguuid};
        }
      } else {
        userLimit := DetermineSpeedLimit(u.speedLimit, u.dynamicSpeedLimit);
      }
      limit := Rate(DetermineSpeedLimit(speedLimit, userLimit));
    }

    /** The device-limit part of CheckLimit: enter the address, and take it out again when it is one
        too many. */
    method Track(taguuid: string, ip: string, uid: int, deviceLimit: int, ghost s: State) returns (over: bool)
      requires taguuid in s.users && s.users[taguuid].uid == uid && s.users[taguuid].deviceLimit == deviceLimit
      requires s.online == userOnlineIP && s.old' == oldUserOnline && s.alive == aliveList
      modifies this`userOnlineIP, this`oldUserOnline
      ensures over == Rejects(s, taguuid, ip, true)
      ensures over ==> userOnlineIP == s.online && oldUserOnline == s.old'
      ensures !over ==> userOnlineIP == OnlineAfter(s, taguuid, ip) && oldUserOnline == OldAfter(s, taguuid, ip)
    {
      var aliveIp := if uid in aliveList then aliveList[uid] else 0;
      if taguuid in userOnlineIP {
        var oldipMap := userOnlineIP[taguuid];
        if ip !in oldipMap {
          userOnlineIP := userOnlineIP[taguuid := oldipMap[ip := uid]];
          if ip in oldUserOnline {
            if oldUserOnline[ip] == uid {
              oldUserOnline := oldUserOnline - {ip};
            }
          } else if deviceLimit > 0 {
            if deviceLimit <= aliveIp {
              userOnlineIP := userOnlineIP[taguuid := userOnlineIP[taguuid] - {ip}];
              assert oldipMap[ip := uid] - {ip} == oldipMap;
              return true;
            }
          }
        }
      } else {
        userOnlineIP := userOnlineIP[taguuid := map[ip := uid]];
        if ip in oldUserOnline {
          if oldUserOnline[ip] == uid {
            oldUserOnline := oldUserOnline - {ip};
          }
        } else if deviceLimit > 0 {
          if deviceLimit <= aliveIp {
            userOnlineIP := userOnlineIP - {taguuid};
            return true;
          }
        }
      }
      return false;
    }

    method GetOnlineDevice() returns (onlineUser: seq<OnlineUser>)
      modifies this`userOnlineIP, this`oldUserOnline
      ensures Drained(old(Value()), Value(), onlineUser)
      ensures userOnlineIP == map[]
      ensures forall ip ::
        LastUid(onlineUser, ip) == if ip in oldUserOnline then Some(oldUserOnline[ip]) else None
    {
      hide *;
      FieldsAre();
      onlineUser := Collect();
      FieldsAre();
      forall ip ensures LastUid(onlineUser, ip) == if ip in oldUserOnline then Some(oldUserOnline[ip]) else None {
        RemembersLast(onlineUser, ip);
      }
    }

    method Collect() returns (onlineUser: seq<OnlineUser>)
      modifies this`userOnlineIP, this`oldUserOnline
      ensures Drained(old(Value()), Value(), onlineUser)
      ensures userOnlineIP == map[] && oldUserOnline == Remembered(onlineUser)
    {
      hide Covers, Remembered, Collected, Lists, Rows, Tagged, Entries;
      onlineUser := [];
      oldUserOnline := map[];
      ghost var online := userOnlineIP;
      ghost var entries: seq<(string, string)> := [];
      CollectNone(online);
      while userOnlineIP != map[]
        invariant oldUserOnline == Remembered(onlineUser)
        invariant forall t | t in userOnlineIP :: t in online && userOnlineIP[t] == online[t]
        invariant Collected(online, Entries(userOnlineIP), entries, onlineUser)
        decreases |userOnlineIP|
      {
        var taguuid :| taguuid in userOnlineIP;
        EntriesOfOne(userOnlineIP, taguuid);
        onlineUser, entries := CollectUser(taguuid, onlineUser, online, entries);
        userOnlineIP := userOnlineIP - {taguuid};
      }
      EntriesNone();
      CollectAll(online, entries, onlineUser);
    }

    /** The inner loop of GetOnlineDevice. */
    method CollectUser(taguuid: string, onlineUser: seq<OnlineUser>,
                       ghost online: map<string, map<string, int>>, ghost entries: seq<(string, string)>)
      returns (rows: seq<OnlineUser>, ghost listed: seq<(string, string)>)
      requires taguuid in userOnlineIP && taguuid in online && userOnlineIP[taguuid] == online[taguuid]
      requires oldUserOnline == Remembered(onlineUser)
      requires Collected(online, Entries(userOnlineIP - {taguuid}) + Tagged(taguuid, online[taguuid].Keys), entries,
                         onlineUser)
      modifies this`oldUserOnline
      ensures oldUserOnline == Remembered(rows)
      ensures Collected(online, Entries(userOnlineIP - {taguuid}), listed, rows)
    {
      hide *;
      rows, listed := onlineUser, entries;
      ghost var rest := userOnlineIP - {taguuid};
      var ips := userOnlineIP[taguuid].Keys;
      while ips != {}
        invariant ips <= online[taguuid].Keys && oldUserOnline == Remembered(rows)
        invariant Collected(online, Entries(rest) + Tagged(taguuid, ips), listed, rows)
        decreases |ips|
      {
        var ip :| ip in ips;
        var uid := userOnlineIP[taguuid][ip];
        CollectOne(online, rest, taguuid, ips, listed, rows, ip);
        ips := ips - {ip};
        oldUserOnline := oldUserOnline[ip := uid];
        rows := rows + [OnlineUser(uid, ip)];
        listed := listed + [(taguuid, ip)];
      }
      TaggedNone(taguuid);
    }
  }

  ghost function Tagged(t: string, ips: set<string>): set<(string, string)> {
    set ip | ip in ips :: (t, ip)
  }

  /** The rows appended so far. */
  ghost predicate Collected(online: map<string, map<string, int>>, left: set<(string, string)>,
      entries: seq<(string, string)>, rows: seq<OnlineUser>) {
    Covers(online, left, entries) && rows == Rows(online, entries)
  }

  lemma CollectNone(online: map<string, map<string, int>>)
    ensures Collected(online, Entries(online), [], []) && Remembered([]) == map[]
  {
  }

  lemma TaggedNone(t: string)
    ensures Tagged(t, {}) == {}
  {
  }

  lemma EntriesNone()
    ensures Entries(map[]) == {}
  {
  }

  lemma EntriesOfOne(online: map<string, map<string, int>>, t: string)
    requires t in online
    ensures Entries(online) == Entries(online - {t}) + Tagged(t, online[t].Keys)
  {
    var rest := online - {t};
    forall e | e in Entries(online) ensures e in Entries(rest) + Tagged(t, online[t].Keys) {
      var u, ip := e.0, e.1;
      assert u in online && ip in online[u];
      if u != t { assert u in rest && rest[u] == online[u]; }
    }
  }

  lemma CollectOne(online: map<string, map<string, int>>, rest: map<string, map<string, int>>, t: string,
      ips: set<string>, entries: seq<(string, string)>, rows: seq<OnlineUser>, ip: string)
    requires Collected(online, Entries(rest) + Tagged(t, ips), entries, rows)
    requires t !in rest && t in online && ip in ips && ip in online[t]
    ensures var r := OnlineUser(online[t][ip], ip);
            Collected(online, Entries(rest) + Tagged(t, ips - {ip}), entries + [(t, ip)], rows + [r]) &&
            Remembered(rows + [r]) == Remembered(rows)[r.ip := r.uid]
  {
    var left := Entries(rest) + Tagged(t, ips);
    assert left - {(t, ip)} == Entries(rest) + Tagged(t, ips - {ip});
    CoversOne(online, left, entries, t, ip);
    RememberedSnoc(rows, OnlineUser(online[t][ip], ip));
  }

  lemma CollectAll(online: map<string, map<string, int>>, entries: seq<(string, string)>, rows: seq<OnlineUser>)
    requires Collected(online, {}, entries, rows)
    ensures Lists(online, entries) && rows == Rows(online, entries)
  {
    CoversAll(online, entries);
  }
}
