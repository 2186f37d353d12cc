/** What the periodic report sends: the traffic payload of api/panel/user.go and the online payload of
    node/user.go. */
module Report {
  import opened Formats
  import opened Limiter
  import opened Sing

  // ---- Traffic ----

  function Payload(rows: seq<UserTraffic>): map<int, (int, int)> {
    if rows == [] then map[]
    else
      var last := rows[|rows| - 1];
      Payload(rows[..|rows| - 1])[last.uid := (last.upload, last.download)]
  }

  method BuildPayload(rows: seq<UserTraffic>) returns (data: map<int, (int, int)>)
    ensures data == Payload(rows)
    ensures data.Keys == set r | r in rows :: r.uid
    ensures forall i | IsLastRow(rows, i) :: data[rows[i].uid] == (rows[i].upload, rows[i].download)
  {
    PayloadKeys(rows);
    PayloadLast(rows);
    data := map[];
    for i := 0 to |rows|
      invariant data == Payload(rows[..i])
    {
      assert rows[..i + 1][..i] == rows[..i];
      data := data[rows[i].uid := (rows[i].upload, rows[i].download)];
    }
    assert rows[..|rows|] == rows;
  }

  /** No later row has the uid of this one. */
  ghost predicate IsLastRow(rows: seq<UserTraffic>, i: int) {
    0 <= i < |rows| && forall j | i < j < |rows| :: rows[j].uid != rows[i].uid
  }

  lemma {:induction false} PayloadLast(rows: seq<UserTraffic>)
    ensures forall i | IsLastRow(rows, i) ::
      rows[i].uid in Payload(rows) && Payload(rows)[rows[i].uid] == (rows[i].upload, rows[i].download)
  {
    if rows != [] {
      var init := rows[..|rows| - 1];
      PayloadLast(init);
      forall i | IsLastRow(rows, i)
        ensures rows[i].uid in Payload(rows) && Payload(rows)[rows[i].uid] == (rows[i].upload, rows[i].download)
      {
        if i < |init| {
          assert IsLastRow(init, i) && rows[i] == init[i];
        }
      }
    }
  }

  ghost predicate Keeps(data: map<int, (int, int)>, r: UserTraffic) {
    r.uid in data && data[r.uid] == (r.upload, r.download)
  }

  /** The payload keeps the totals of every row exactly when rows of one uid agree. */
  lemma {:induction false} PayloadKeepsExactly(rows: seq<UserTraffic>)
    ensures (forall r | r in rows :: Keeps(Payload(rows), r)) <==>
            (forall r, r' | r in rows && r' in rows && r.uid == r'.uid :: r == r')
  {
    PayloadKeys(rows);
    if forall r, r' | r in rows && r' in rows && r.uid == r'.uid :: r == r' {
      forall r | r in rows ensures Keeps(Payload(rows), r) {
        var r' := PayloadRow(rows, r.uid);
      }
    }
    if forall r | r in rows :: Keeps(Payload(rows), r) {
      forall r, r' | r in rows && r' in rows && r.uid == r'.uid ensures r == r' {
        assert Keeps(Payload(rows), r) && Keeps(Payload(rows), r');
      }
    }
  }

  lemma {:induction false} PayloadKeys(rows: seq<UserTraffic>)
    ensures Payload(rows).Keys == set r | r in rows :: r.uid
  {
    if rows != [] {
      var init, last := rows[..|rows| - 1], rows[|rows| - 1];
      PayloadKeys(init);
      assert rows == init + [last];
    }
  }

  lemma {:induction false} PayloadRow(rows: seq<UserTraffic>, uid: int) returns (r: UserTraffic)
    requires uid in Payload(rows)
    ensures r in rows && r.uid == uid && Payload(rows)[uid] == (r.upload, r.download)
  {
    var init, last := rows[..|rows| - 1], rows[|rows| - 1];
    if last.uid == uid {
      r := last;
    } else {
      r := PayloadRow(init, uid);
    }
  }

  /** When known uuids have distinct uids, nothing of a slice gets lost in the payload. */
  lemma SlicePayloadKeeps(uidMap: map<string, int>, min: int, c: map<string, Amount>, rows: seq<UserTraffic>)
    requires IsSlice(uidMap, min, c, rows)
    requires forall u, v | u in uidMap && v in uidMap && uidMap[u] == uidMap[v] :: u == v
    ensures forall r | r in rows :: Keeps(Payload(rows), r)
  {
    var order :| Enumerates(order, c.Keys) && rows == SliceRows(uidMap, min, c, order);
    forall r, r' | r in rows && r' in rows && r.uid == r'.uid ensures r == r' {
      var u := RowOwner(uidMap, min, c, order, r);
      var u' := RowOwner(uidMap, min, c, order, r');
    }
    PayloadKeepsExactly(rows);
  }

  lemma {:induction false} RowOwner(uidMap: map<string, int>, min: int, c: map<string, Amount>, order: seq<string>,
      r: UserTraffic) returns (u: string)
    requires forall x | x in order :: x in c
    requires r in SliceRows(uidMap, min, c, order)
    ensures u in c && u in uidMap && r == UserTraffic(uidMap[u], c[u].up, c[u].down)
  {
    var init, last := order[..|order| - 1], order[|order| - 1];
    if r in RowsFor(uidMap, min, c, last) {
      u := last;
    } else {
      u := RowOwner(uidMap, min, c, init, r);
    }
  }

  // ---- Online users ----

  /** The uids with a row of little traffic: enough to tell a ping from a user. */
  function LowTraffic(traffic: seq<UserTraffic>, minKilobytes: int): set<int> {
    set r | r in traffic && r.upload + r.download < minKilobytes * 1000 :: r.uid
  }

  /** Some row of the uid is below the threshold. */
  ghost predicate HasLowRow(traffic: seq<UserTraffic>, minKilobytes: int, uid: int) {
    exists i :: 0 <= i < |traffic| && traffic[i].uid == uid
                && traffic[i].upload + traffic[i].download < minKilobytes * 1000
  }

  lemma LowTrafficMeans(traffic: seq<UserTraffic>, minKilobytes: int, uid: int)
    ensures uid in LowTraffic(traffic, minKilobytes) <==> HasLowRow(traffic, minKilobytes, uid)
  {
    if HasLowRow(traffic, minKilobytes, uid) {
      var i :| 0 <= i < |traffic| && traffic[i].uid == uid
               && traffic[i].upload + traffic[i].download < minKilobytes * 1000;
      assert traffic[i] in traffic;
    }
  }

  function Surviving(online: seq<OnlineUser>, low: set<int>): seq<OnlineUser> {
    if online == [] then []
    else
      var last := online[|online| - 1];
      Surviving(online[..|online| - 1], low) + if last.uid in low then [] else [last]
  }

  function IpsOf(data: map<int, seq<string>>, uid: int): seq<string> {
    if uid in data then data[uid] else []
  }

  function Grouped(online: seq<OnlineUser>): map<int, seq<string>> {
    if online == [] then map[]
    else
      var data, last := Grouped(online[..|online| - 1]), online[|online| - 1];
      data[last.uid := IpsOf(data, last.uid) + [last.ip]]
  }

  method BuildOnline(traffic: seq<UserTraffic>, online: seq<OnlineUser>, minKilobytes: int)
    returns (result: seq<OnlineUser>, data: map<int, seq<string>>)
    ensures result == Surviving(online, LowTraffic(traffic, minKilobytes))
    ensures data == Grouped(result)
    ensures forall r ::
      multiset(result)[r] == if HasLowRow(traffic, minKilobytes, r.uid) then 0 else multiset(online)[r]
    ensures forall uid, ip ::
      multiset(if uid in data then data[uid] else [])[ip] == multiset(result)[OnlineUser(uid, ip)]
    ensures forall uid | uid in data :: data[uid] != []
  {
    hide *;
    result := Select(traffic, online, minKilobytes);
    forall r ensures multiset(result)[r] == if HasLowRow(traffic, minKilobytes, r.uid) then 0 else multiset(online)[r] {
      SurvivingCount(online, LowTraffic(traffic, minKilobytes), r);
      LowTrafficMeans(traffic, minKilobytes, r.uid);
    }
    data := Group(result);
    forall uid, ip
      ensures multiset(if uid in data then data[uid] else [])[ip] == multiset(result)[OnlineUser(uid, ip)]
    {
      GroupedCount(result, uid, ip);
      IpsOfMeans(data, uid);
    }
    forall uid | uid in data ensures data[uid] != [] {
      GroupedCount(result, uid, "");
      IpsOfMeans(data, uid);
    }
  }

  lemma IpsOfMeans(data: map<int, seq<string>>, uid: int)
    ensures IpsOf(data, uid) == if uid in data then data[uid] else []
  {
  }

  /** The first two loops. */
  method Select(traffic: seq<UserTraffic>, online: seq<OnlineUser>, minKilobytes: int)
    returns (result: seq<OnlineUser>)
    ensures result == Surviving(online, LowTraffic(traffic, minKilobytes))
  {
    var nocount: set<int> := {};
    for i := 0 to |traffic|
      invariant nocount == LowTraffic(traffic[..i], minKilobytes)
    {
      assert traffic[..i + 1] == traffic[..i] + [traffic[i]];
      if traffic[i].upload + traffic[i].download < minKilobytes * 1000 {
        nocount := nocount + {traffic[i].uid};
      }
    }
    assert traffic[..|traffic|] == traffic;
    result := [];
    for i := 0 to |online|
      invariant result == Surviving(online[..i], nocount)
    {
      assert online[..i + 1][..i] == online[..i];
      if online[i].uid !in nocount {
        result := result + [online[i]];
      }
    }
    assert online[..|online|] == online;
  }

  /** The third. */
  method Group(result: seq<OnlineUser>) returns (data: map<int, seq<string>>)
    ensures data == Grouped(result)
  {
    data := map[];
    for i := 0 to |result|
      invariant data == Grouped(result[..i])
    {
      assert result[..i + 1][..i] == result[..i];
      data := data[result[i].uid := (if result[i].uid in data then data[result[i].uid] else []) + [result[i].ip]];
    }
    assert result[..|result|] == result;
  }

  lemma {:induction false} SurvivingCount(online: seq<OnlineUser>, low: set<int>, r: OnlineUser)
    ensures multiset(Surviving(online, low))[r] == if r.uid in low then 0 else multiset(online)[r]
  {
    if online != [] {
      var init, last := online[..|online| - 1], online[|online| - 1];
      SurvivingCount(init, low, r);
      assert online == init + [last];
      SurvivingOne(online, low);
      hide Surviving;
    }
  }

  lemma SurvivingOne(online: seq<OnlineUser>, low: set<int>)
    requires online != []
    ensures var init, last := online[..|online| - 1], online[|online| - 1];
            Surviving(online, low) == Surviving(init, low) + if last.uid in low then [] else [last]
  {
  }

  lemma {:induction false} GroupedCount(online: seq<OnlineUser>, uid: int, ip: string)
    ensures multiset(IpsOf(Grouped(online), uid))[ip] == multiset(online)[OnlineUser(uid, ip)]
    ensures uid in Grouped(online) ==> IpsOf(Grouped(online), uid) != []
  {
    hide *;
    if online == [] {
      GroupedNone(uid);
    } else {
      var init, last := online[..|online| - 1], online[|online| - 1];
      GroupedCount(init, uid, ip);
      assert online == init + [last];
      GroupedOne(online, uid);
    }
  }

  lemma GroupedNone(uid: int)
    ensures IpsOf(Grouped([]), uid) == [] && uid !in Grouped([])
  {
  }

  lemma GroupedOne(online: seq<OnlineUser>, uid: int)
    requires online != []
    ensures var init, last := online[..|online| - 1], online[|online| - 1];
            && IpsOf(Grouped(online), uid) == IpsOf(Grouped(init), uid) + (if last.uid == uid then [last.ip] else [])
            && (uid in Grouped(online) <==> uid == last.uid || uid in Grouped(init))
  {
  }

  /** The tagged uuids under which the address is online for the uid. */
  ghost function Sources(online: map<string, map<string, int>>, uid: int, ip: string): set<string> {
    set t | t in online && ip in online[t] && online[t][ip] == uid
  }

  ghost function SourcesIn(online: map<string, map<string, int>>, entries: seq<(string, string)>, uid: int,
      ip: string): set<string> {
    set t | (t, ip) in entries && t in online && ip in online[t] && online[t][ip] == uid
  }

  lemma {:induction false} RowsCount(online: map<string, map<string, int>>, entries: seq<(string, string)>, uid: int,
      ip: string)
    requires forall i | 0 <= i < |entries| :: entries[i].0 in online && entries[i].1 in online[entries[i].0]
    requires forall i, j | 0 <= i < j < |entries| :: entries[i] != entries[j]
    ensures multiset(Rows(online, entries))[OnlineUser(uid, ip)] == |SourcesIn(online, entries, uid, ip)|
  {
    if entries == [] {
      assert SourcesIn(online, entries, uid, ip) == {};
    } else {
      var init, last := entries[..|entries| - 1], entries[|entries| - 1];
      RowsCount(online, init, uid, ip);
      assert entries == init + [last];
      var row := OnlineUser(online[last.0][last.1], last.1);
      assert Rows(online, entries) == Rows(online, init) + [row];
      hide Rows, SourcesIn;
      SourcesOne(online, init, last, uid, ip);
    }
  }

  lemma SourcesOne(online: map<string, map<string, int>>, init: seq<(string, string)>, last: (string, string),
      uid: int, ip: string)
    requires last.0 in online && last.1 in online[last.0] && last !in init
    ensures |SourcesIn(online, init + [last], uid, ip)| ==
      |SourcesIn(online, init, uid, ip)| + if online[last.0][last.1] == uid && last.1 == ip then 1 else 0
  {
    var a, b := SourcesIn(online, init, uid, ip), SourcesIn(online, init + [last], uid, ip);
    if online[last.0][last.1] == uid && last.1 == ip {
      assert b == a + {last.0} && last.0 !in a;
    } else {
      assert b == a;
    }
  }

  /** The main result on reports: after a drain, the payload lists an address under a uid once for
      every online entry of the two, and not at all for a uid of little traffic. */
  lemma OnlineSentOnce(s: State, s': State, online: seq<OnlineUser>, traffic: seq<UserTraffic>, minKilobytes: int,
      uid: int, ip: string)
    requires Drained(s, s', online)
    ensures var data := Grouped(Surviving(online, LowTraffic(traffic, minKilobytes)));
            multiset(if uid in data then data[uid] else [])[ip] ==
              if HasLowRow(traffic, minKilobytes, uid) then 0 else |Sources(s.online, uid, ip)|
    ensures s'.online == map[]
  {
    var entries: seq<(string, string)> :| Lists(s.online, entries) && online == Rows(s.online, entries) &&
      s' == s.(online := map[], old' := Remembered(online));
    var low := LowTraffic(traffic, minKilobytes);
    RowsCount(s.online, entries, uid, ip);
    assert SourcesIn(s.online, entries, uid, ip) == Sources(s.online, uid, ip);
    SurvivingCount(online, low, OnlineUser(uid, ip));
    GroupedCount(Surviving(online, low), uid, ip);
    LowTrafficMeans(traffic, minKilobytes, uid);
  }

  /** From the state to what is sent: the uid and totals of every known user above the threshold, unless another one
      of them has the uid; and an address under a uid once for each tagged uuid of that uid it is online for, but
      for the uids of such users with little traffic. */
  ghost predicate Sends(uidMap: map<string, int>, min: int, minKilobytes: int, c: map<string, Amount>,
      online: map<string, map<string, int>>, traffic: map<int, (int, int)>, sent: map<int, seq<string>>) {
    && (forall u | Counts(uidMap, min, c, u) :: uidMap[u] in traffic)
    && (forall uid | uid in traffic :: IsTotal(uidMap, min, c, uid, traffic[uid]))
    && (forall uid, ip :: IsSent(uidMap, min, minKilobytes, c, online, sent, uid, ip))
  }

  ghost predicate IsSent(uidMap: map<string, int>, min: int, minKilobytes: int, c: map<string, Amount>,
      online: map<string, map<string, int>>, sent: map<int, seq<string>>, uid: int, ip: string) {
    multiset(if uid in sent then sent[uid] else [])[ip] ==
      if Quiet(uidMap, min, minKilobytes, c, uid) then 0 else |Sources(online, uid, ip)|
  }

  ghost predicate Counts(uidMap: map<string, int>, min: int, c: map<string, Amount>, u: string) {
    u in c && u in uidMap && uidMap[u] != 0 && c[u].up + c[u].down > min
  }

  /** The two totals of some such user with the uid. */
  ghost predicate IsTotal(uidMap: map<string, int>, min: int, c: map<string, Amount>, uid: int, total: (int, int)) {
    exists u :: Counts(uidMap, min, c, u) && uidMap[u] == uid && total == (c[u].up, c[u].down)
  }

  ghost predicate Quiet(uidMap: map<string, int>, min: int, minKilobytes: int, c: map<string, Amount>, uid: int) {
    exists u :: Counts(uidMap, min, c, u) && uidMap[u] == uid && c[u].up + c[u].down < minKilobytes * 1000
  }

  lemma QuietMeans(uidMap: map<string, int>, min: int, minKilobytes: int, c: map<string, Amount>,
      rows: seq<UserTraffic>, named: seq<string>, uid: int)
    requires Names(uidMap, min, c, rows, named)
    ensures HasLowRow(rows, minKilobytes, uid) <==> Quiet(uidMap, min, minKilobytes, c, uid)
  {
    if HasLowRow(rows, minKilobytes, uid) {
      var i :| 0 <= i < |rows| && rows[i].uid == uid && rows[i].upload + rows[i].download < minKilobytes * 1000;
      assert named[i] in named;
    }
    if u :| Counts(uidMap, min, c, u) && uidMap[u] == uid && c[u].up + c[u].down < minKilobytes * 1000 {
      assert u in named;
      var i :| 0 <= i < |named| && named[i] == u;
      assert rows[i].uid == uid;
    }
  }

  lemma PayloadSends(uidMap: map<string, int>, min: int, c: map<string, Amount>, rows: seq<UserTraffic>,
      named: seq<string>)
    requires Names(uidMap, min, c, rows, named)
    ensures forall u | Counts(uidMap, min, c, u) :: uidMap[u] in Payload(rows)
    ensures forall uid | uid in Payload(rows) :: IsTotal(uidMap, min, c, uid, Payload(rows)[uid])
  {
    hide Payload;
    PayloadKeys(rows);
    forall u | Counts(uidMap, min, c, u) ensures uidMap[u] in Payload(rows) {
      assert u in named;
      var i :| 0 <= i < |named| && named[i] == u;
      assert rows[i] in rows;
    }
    forall uid | uid in Payload(rows) ensures IsTotal(uidMap, min, c, uid, Payload(rows)[uid]) {
      var r := PayloadRow(rows, uid);
      var i :| 0 <= i < |rows| && rows[i] == r;
      assert named[i] in named;
    }
  }

  lemma ReportSends(uidMap: map<string, int>, min: int, minKilobytes: int, c: map<string, Amount>,
      rows: seq<UserTraffic>, named: seq<string>, s: State, s': State, users: seq<OnlineUser>)
    requires Names(uidMap, min, c, rows, named) && Drained(s, s', users)
    ensures Sends(uidMap, min, minKilobytes, c, s.online, Payload(rows),
                  Grouped(Surviving(users, LowTraffic(rows, minKilobytes))))
  {
    hide Names, Counts, IsTotal, IsSent, Payload, Grouped, Surviving, LowTraffic, Drained;
    PayloadSends(uidMap, min, c, rows, named);
    var sent := Grouped(Surviving(users, LowTraffic(rows, minKilobytes)));
    forall uid, ip ensures IsSent(uidMap, min, minKilobytes, c, s.online, sent, uid, ip) {
      AddressSent(uidMap, min, minKilobytes, c, rows, named, s, s', users, uid, ip);
    }
  }

  lemma AddressSent(uidMap: map<string, int>, min: int, minKilobytes: int, c: map<string, Amount>,
      rows: seq<UserTraffic>, named: seq<string>, s: State, s': State, users: seq<OnlineUser>, uid: int, ip: string)
    requires Names(uidMap, min, c, rows, named) && Drained(s, s', users)
    ensures IsSent(uidMap, min, minKilobytes, c, s.online,
                   Grouped(Surviving(users, LowTraffic(rows, minKilobytes))), uid, ip)
  {
    hide Names, Counts, Quiet, Payload, Grouped, Surviving, LowTraffic, Drained, Sources, HasLowRow;
    OnlineSentOnce(s, s', users, rows, minKilobytes, uid, ip);
    QuietMeans(uidMap, min, minKilobytes, c, rows, named, uid);
  }

  /** reportUserTrafficTask: the slice, then the drain.  The first result is sent when it is not
      empty, the second when somebody was online; a payload that fails to arrive is not sent again. */
  method ReportTask(server: Sing, limiter: Limiter, tag: string, minKilobytes: int)
    returns (traffic: map<int, (int, int)>, online: map<int, seq<string>>)
    requires server.Valid()
    modifies server`counters, server.Storages(tag), limiter
    ensures server.Valid()
    ensures server.Contents(tag) ==
      SliceRest(server.uidMap, server.MinTraffic(tag), true, old(server.Contents(tag)), {})
    ensures var c := server.nodeReportMinTrafficBytes;
            Sends(server.uidMap, if tag in c then c[tag] else 0, minKilobytes, old(server.Contents(tag)),
                  old(limiter.userOnlineIP), traffic, online)
    ensures limiter.userOnlineIP == map[]
    ensures exists rows, users ::
      && IsSlice(server.uidMap, server.MinTraffic(tag), old(server.Contents(tag)), rows)
      && Drained(old(limiter.Value()), limiter.Value(), users)
      && traffic == Payload(rows)
      && online == Grouped(Surviving(users, LowTraffic(rows, minKilobytes)))
  {
    hide Payload, Grouped, Surviving, LowTraffic, IsSlice, Drained, SliceRest, Names, SliceKeeps, Sends, HasLowRow;
    hide LastUid, IsLastRow, Sing.Valid;
    limiter.FieldsAre();
    var rows;
    ghost var named;
    rows, named := server.GetUserTrafficSlice(tag, true);
    assert limiter.Value() == old(limiter.Value());
    traffic := BuildPayload(rows);
    var users := limiter.GetOnlineDevice();
    var result;
    result, online := BuildOnline(rows, users, minKilobytes);
    ghost var c := server.nodeReportMinTrafficBytes;
    ReportSends(server.uidMap, if tag in c then c[tag] else 0, minKilobytes, old(server.Contents(tag)), rows, named,
                old(limiter.Value()), limiter.Value(), users);
    assert IsSlice(server.uidMap, server.MinTraffic(tag), old(server.Contents(tag)), rows);
    assert Drained(old(limiter.Value()), limiter.Value(), users);
  }
}
