/** compareUserList of node/user.go: which users of the old list to take out, which of the new to add. */
module UserDiff {
  import opened Formats

  /** For every key of the list, the last position that has it. */
  function LastIndex(us: seq<UserInfo>): (m: map<string, nat>)
    ensures forall k | k in m :: m[k] < |us|
  {
    if us == [] then map[]
    else
      var n := |us| - 1;
      LastIndex(us[..n])[UserKey(us[n]) := n]
  }

  lemma {:induction false} LastIndexMeans(us: seq<UserInfo>)
    ensures var m := LastIndex(us); forall k | k in m :: UserKey(us[m[k]]) == k
    ensures LastIndex(us).Keys == KeysOf(us)
  {
    if us != [] {
      var n := |us| - 1;
      LastIndexMeans(us[..n]);
      assert us[..n] + [us[n]] == us;
      KeysOfSnoc(us[..n], us[n]);
      var m := LastIndex(us);
      forall k | k in m ensures UserKey(us[m[k]]) == k {
        if k != UserKey(us[n]) { assert m[k] == LastIndex(us[..n])[k]; }
      }
    }
  }

  lemma {:induction false} LastIndexIsLast(us: seq<UserInfo>, j: nat)
    requires j < |us|
    ensures UserKey(us[j]) in LastIndex(us) && j <= LastIndex(us)[UserKey(us[j])]
  {
    hide UserKey;
    var n := |us| - 1;
    if j < n {
      LastIndexIsLast(us[..n], j);
    }
  }

  /** The new users that find no partner in `m`, when each partner serves once. */
  function Unmatched(m: map<string, nat>, us: seq<UserInfo>): seq<UserInfo> {
    if us == [] then []
    else if UserKey(us[0]) in m then Unmatched(m - {UserKey(us[0])}, us[1..])
    else [us[0]] + Unmatched(m, us[1..])
  }

  function KeysOf(us: seq<UserInfo>): set<string> {
    set i | 0 <= i < |us| :: UserKey(us[i])
  }

  /** What the comparison returns; the order of the deleted users is that of a map iteration. */
  ghost predicate IsDiff(old': seq<UserInfo>, new': seq<UserInfo>, deleted: seq<UserInfo>, added: seq<UserInfo>) {
    var m := LastIndex(old');
    added == Unmatched(m, new') && Picked(old', m, m.Keys - KeysOf(new'), deleted)
  }

  method CompareUserList(old': seq<UserInfo>, new': seq<UserInfo>)
    returns (deleted: seq<UserInfo>, added: seq<UserInfo>)
    ensures IsDiff(old', new', deleted, added)
    ensures added == AddedUpTo(old', new', |new'|)
    ensures forall d :: d in deleted <==> exists i :: IsDeleted(old', new', i) && old'[i] == d
    ensures forall i, j | 0 <= i < j < |deleted| :: UserKey(deleted[i]) != UserKey(deleted[j])
  {
    hide *;
    var oldMap: map<string, nat> := map[];
    LastIndexNone();
    for i := 0 to |old'|
      invariant oldMap == LastIndex(old'[..i])
    {
      LastIndexOne(old', i);
      oldMap := oldMap[UserKey(old'[i]) := i];
    }
    assert old'[..|old'|] == old';
    ghost var m := oldMap;
    added := [];
    MatchStart(m, new');
    for i := 0 to |new'|
      invariant oldMap == Left(m, new', i)
      invariant added + Unmatched(oldMap, new'[i..]) == Unmatched(m, new')
    {
      MatchStep(m, new', i);
      var key := UserKey(new'[i]);
      if key !in oldMap {
        added := added + [new'[i]];
      } else {
        oldMap := oldMap - {key};
      }
    }
    MatchEnd(m, new', added);
    LastIndexMeans(old');
    deleted := Remaining(old', oldMap);
    PickedLeft(old', m, new', deleted);
    IsDiffMeans(old', new', deleted, added);
    AddedMeans(old', new', |new'|);
    MatchEnd(m, new', AddedUpTo(old', new', |new'|));
    DeletedByKey(old', new', deleted, added);
  }

  /** The user is new: no old user has its key, or an earlier new one was matched with it. */
  ghost predicate IsAdded(old': seq<UserInfo>, new': seq<UserInfo>, i: int) {
    && 0 <= i < |new'|
    && ((forall j | 0 <= j < |old'| :: UserKey(old'[j]) != UserKey(new'[i]))
        || exists j :: 0 <= j < i && UserKey(new'[j]) == UserKey(new'[i]))
  }

  /** The last old user of a key that no new user has. */
  ghost predicate IsDeleted(old': seq<UserInfo>, new': seq<UserInfo>, i: int) {
    && 0 <= i < |old'|
    && (forall j | i < j < |old'| :: UserKey(old'[j]) != UserKey(old'[i]))
    && (forall j | 0 <= j < |new'| :: UserKey(new'[j]) != UserKey(old'[i]))
  }

  ghost function AddedUpTo(old': seq<UserInfo>, new': seq<UserInfo>, n: nat): seq<UserInfo>
    requires n <= |new'|
  {
    if n == 0 then [] else AddedUpTo(old', new', n - 1) + if IsAdded(old', new', n - 1) then [new'[n - 1]] else []
  }

  lemma IsAddedMeans(old': seq<UserInfo>, new': seq<UserInfo>, i: nat)
    requires i < |new'|
    ensures IsAdded(old', new', i) <==> UserKey(new'[i]) !in KeysOf(old') || UserKey(new'[i]) in KeysOf(new'[..i])
  {
    hide UserKey;
    var k := UserKey(new'[i]);
    if k in KeysOf(new'[..i]) {
      var j :| 0 <= j < i && UserKey(new'[..i][j]) == k;
      assert new'[..i][j] == new'[j];
    }
    if j :| 0 <= j < i && UserKey(new'[j]) == k {
      assert UserKey(new'[..i][j]) == k;
    }
  }

  lemma {:induction false} AddedMeans(old': seq<UserInfo>, new': seq<UserInfo>, n: nat)
    requires n <= |new'|
    ensures var m := LastIndex(old');
            AddedUpTo(old', new', n) + Unmatched(Left(m, new', n), new'[n..]) == Unmatched(m, new')
  {
    hide *;
    var m := LastIndex(old');
    AddedOne(old', new', n);
    if n == 0 {
      MatchStart(m, new');
    } else {
      AddedMeans(old', new', n - 1);
      MatchStep(m, new', n - 1);
      LastIndexMeans(old');
      IsAddedMeans(old', new', n - 1);
      InLeft(m, new', n - 1, UserKey(new'[n - 1]));
    }
  }

  lemma AddedOne(old': seq<UserInfo>, new': seq<UserInfo>, n: nat)
    requires n <= |new'|
    ensures AddedUpTo(old', new', n) == if n == 0 then []
      else AddedUpTo(old', new', n - 1) + if IsAdded(old', new', n - 1) then [new'[n - 1]] else []
  {
  }

  lemma InLeft(m: map<string, nat>, us: seq<UserInfo>, i: nat, key: string)
    requires i <= |us|
    ensures key in Left(m, us, i) <==> key in m && key !in KeysOf(us[..i])
  {
  }

  lemma KeysMean(us: seq<UserInfo>)
    ensures forall i | 0 <= i < |us| :: UserKey(us[i]) in KeysOf(us)
    ensures forall k | k in KeysOf(us) :: exists i :: 0 <= i < |us| && UserKey(us[i]) == k
  {
  }

  lemma LastOfKey(us: seq<UserInfo>, k: string)
    requires k in LastIndex(us)
    ensures forall j | LastIndex(us)[k] < j < |us| :: UserKey(us[j]) != k
  {
    hide UserKey, LastIndex;
    forall j | LastIndex(us)[k] < j < |us| ensures UserKey(us[j]) != k {
      LastIndexIsLast(us, j);
    }
  }

  lemma DeletedByKey(old': seq<UserInfo>, new': seq<UserInfo>, deleted: seq<UserInfo>, added: seq<UserInfo>)
    requires IsDiff(old', new', deleted, added)
    ensures forall d :: d in deleted <==> exists i :: IsDeleted(old', new', i) && old'[i] == d
    ensures forall i, j | 0 <= i < j < |deleted| :: UserKey(deleted[i]) != UserKey(deleted[j])
  {
    hide UserKey, LastIndex, KeysOf, Unmatched;
    var m := LastIndex(old');
    LastIndexMeans(old');
    KeysMean(old');
    KeysMean(new');
    KeysMean(deleted);
    forall d | d in deleted ensures exists i :: IsDeleted(old', new', i) && old'[i] == d {
      var j :| 0 <= j < |deleted| && deleted[j] == d;
      assert UserKey(deleted[j]) in KeysOf(deleted);
      LastOfKey(old', UserKey(d));
      assert IsDeleted(old', new', m[UserKey(d)]);
    }
    forall i | IsDeleted(old', new', i) ensures old'[i] in deleted {
      var k := UserKey(old'[i]);
      LastIndexIsLast(old', i);
      assert k in m && m[k] == i;
      assert k !in KeysOf(new');
      assert k in KeysOf(deleted);
      var j :| 0 <= j < |deleted| && UserKey(deleted[j]) == k;
    }
  }

  lemma PickedLeft(old': seq<UserInfo>, m: map<string, nat>, new': seq<UserInfo>, deleted: seq<UserInfo>)
    requires forall k | k in m :: m[k] < |old'|
    ensures var left := m - KeysOf(new');
      Picked(old', left, left.Keys, deleted) <==> Picked(old', m, m.Keys - KeysOf(new'), deleted)
  {
    assert (m - KeysOf(new')).Keys == m.Keys - KeysOf(new');
  }

  lemma LastIndexNone()
    ensures LastIndex([]) == map[]
  {
  }

  lemma LastIndexOne(us: seq<UserInfo>, i: nat)
    requires i < |us|
    ensures LastIndex(us[..i + 1]) == LastIndex(us[..i])[UserKey(us[i]) := i]
  {
    assert us[..i + 1][..i] == us[..i];
  }

  lemma IsDiffMeans(old': seq<UserInfo>, new': seq<UserInfo>, deleted: seq<UserInfo>, added: seq<UserInfo>)
    ensures var m := LastIndex(old');
      IsDiff(old', new', deleted, added) <==>
        added == Unmatched(m, new') && Picked(old', m, m.Keys - KeysOf(new'), deleted)
  {
  }

  /** What is left of `m` after the first `i` users of the new list. */
  ghost function Left(m: map<string, nat>, us: seq<UserInfo>, i: nat): map<string, nat>
    requires i <= |us|
  {
    m - KeysOf(us[..i])
  }

  lemma MatchStart(m: map<string, nat>, us: seq<UserInfo>)
    ensures Left(m, us, 0) == m && us[0..] == us
  {
  }

  lemma MatchEnd(m: map<string, nat>, us: seq<UserInfo>, added: seq<UserInfo>)
    requires added + Unmatched(Left(m, us, |us|), us[|us|..]) == Unmatched(m, us)
    ensures Left(m, us, |us|) == m - KeysOf(us) && added == Unmatched(m, us)
  {
    assert us[..|us|] == us;
  }

  lemma MatchStep(m: map<string, nat>, us: seq<UserInfo>, i: nat)
    requires i < |us|
    ensures var l, r, k := Left(m, us, i), Left(m, us, i + 1), UserKey(us[i]);
            if k in l then r == l - {k} && Unmatched(l, us[i..]) == Unmatched(r, us[i + 1..])
            else r == l && Unmatched(l, us[i..]) == [us[i]] + Unmatched(r, us[i + 1..])
  {
    KeysOfPrefix(us, i);
    assert us[i..][1..] == us[i + 1..];
    var l, r, k := Left(m, us, i), Left(m, us, i + 1), UserKey(us[i]);
    assert r == l - {k};
    assert k !in l ==> l - {k} == l;
  }

  /** `d` holds, once each, the users that `m` points to for `keys`. */
  ghost predicate Picked(us: seq<UserInfo>, m: map<string, nat>, keys: set<string>, d: seq<UserInfo>)
    requires forall k | k in m :: m[k] < |us|
  {
    && KeysOf(d) == keys
    && (forall i | 0 <= i < |d| :: var k := UserKey(d[i]); k in m && d[i] == us[m[k]])
    && (forall i, j | 0 <= i < j < |d| :: UserKey(d[i]) != UserKey(d[j]))
  }

  lemma PickOne(us: seq<UserInfo>, m: map<string, nat>, keys: set<string>, d: seq<UserInfo>, key: string)
    requires forall k | k in m :: m[k] < |us|
    requires Picked(us, m, keys, d) && key in m && key !in keys && UserKey(us[m[key]]) == key
    ensures Picked(us, m, keys + {key}, d + [us[m[key]]])
  {
    KeysOfSnoc(d, us[m[key]]);
    forall i | 0 <= i < |d| ensures UserKey(d[i]) != key {
      assert UserKey(d[i]) in KeysOf(d);
    }
  }

  /** The last loop of the comparison. */
  method Remaining(old': seq<UserInfo>, oldMap: map<string, nat>) returns (deleted: seq<UserInfo>)
    requires forall k | k in oldMap :: oldMap[k] < |old'| && UserKey(old'[oldMap[k]]) == k
    ensures Picked(old', oldMap, oldMap.Keys, deleted)
  {
    hide Picked;
    deleted := [];
    var left := oldMap.Keys;
    PickNone(old', oldMap);
    assert oldMap.Keys - left == {};
    while left != {}
      invariant left <= oldMap.Keys && Picked(old', oldMap, oldMap.Keys - left, deleted)
      decreases |left|
    {
      var key :| key in left;
      PickOne(old', oldMap, oldMap.Keys - left, deleted, key);
      assert oldMap.Keys - left + {key} == oldMap.Keys - (left - {key});
      left := left - {key};
      deleted := deleted + [old'[oldMap[key]]];
    }
    assert oldMap.Keys - left == oldMap.Keys;
  }

  lemma PickNone(us: seq<UserInfo>, m: map<string, nat>)
    requires forall k | k in m :: m[k] < |us|
    ensures Picked(us, m, {}, [])
  {
  }

  lemma KeysOfPrefix(us: seq<UserInfo>, i: nat)
    requires i < |us|
    ensures KeysOf(us[..i + 1]) == KeysOf(us[..i]) + {UserKey(us[i])}
  {
    assert us[..i + 1] == us[..i] + [us[i]];
    KeysOfSnoc(us[..i], us[i]);
  }

  lemma KeysOfSnoc(us: seq<UserInfo>, u: UserInfo)
    ensures KeysOf(us + [u]) == KeysOf(us) + {UserKey(u)}
  {
    var vs := us + [u];
    assert vs[|us|] == u && forall i | 0 <= i < |us| :: vs[i] == us[i];
    assert KeysOf(vs) <= KeysOf(us) + {UserKey(u)};
    forall k | k in KeysOf(us) ensures k in KeysOf(vs) {
      var i :| 0 <= i < |us| && UserKey(us[i]) == k;
      assert UserKey(vs[i]) == k;
    }
    assert UserKey(vs[|us|]) in KeysOf(vs);
  }

  // ---- What it means ----

  ghost predicate DistinctUuids(us: seq<UserInfo>) {
    forall i, j | 0 <= i < j < |us| :: us[i].uuid != us[j].uuid
  }

  ghost predicate UuidLength(us: seq<UserInfo>, n: nat) {
    forall u | u in us :: |u.uuid| == n
  }

  /** Some user of the list has this uuid and this speed limit. */
  ghost predicate Lists(us: seq<UserInfo>, uuid: string, speedLimit: int) {
    exists u :: u in us && u.uuid == uuid && u.speedLimit == speedLimit
  }

  /** The key tells the listed users apart: equal keys stand for equal uuids and speed limits. */
  ghost predicate Separates(all: set<UserInfo>) {
    forall u, v | u in all && v in all && UserKey(u) == UserKey(v) :: u.uuid == v.uuid && u.speedLimit == v.speedLimit
  }

  ghost predicate DrawnFrom(us: seq<UserInfo>, all: set<UserInfo>) {
    DistinctUuids(us) && forall u | u in us :: u in all
  }

  /** The old users absent from the new list and the new users absent from the old one, absence being
      by uuid and speed limit, each once. */
  ghost predicate Exact(old': seq<UserInfo>, new': seq<UserInfo>, deleted: seq<UserInfo>, added: seq<UserInfo>) {
    && (forall u :: u in deleted <==> u in old' && !Lists(new', u.uuid, u.speedLimit))
    && (forall u :: u in added <==> u in new' && !Lists(old', u.uuid, u.speedLimit))
    && DistinctUuids(deleted) && DistinctUuids(added)
  }

  lemma KeyListed(us: seq<UserInfo>, all: set<UserInfo>, u: UserInfo)
    requires Separates(all) && u in all && forall v | v in us :: v in all
    ensures UserKey(u) in KeysOf(us) <==> Lists(us, u.uuid, u.speedLimit)
  {
    if UserKey(u) in KeysOf(us) {
      var i :| 0 <= i < |us| && UserKey(us[i]) == UserKey(u);
      assert us[i] in us;
    }
    if Lists(us, u.uuid, u.speedLimit) {
      var v :| v in us && v.uuid == u.uuid && v.speedLimit == u.speedLimit;
      var i :| 0 <= i < |us| && us[i] == v;
      assert UserKey(us[i]) == UserKey(u);
    }
  }

  lemma RestDrawn(us: seq<UserInfo>, all: set<UserInfo>)
    requires us != [] && Separates(all) && DrawnFrom(us, all)
    ensures DrawnFrom(us[1..], all) && us[0] in all
    ensures forall v | v in us[1..] :: v.uuid != us[0].uuid && UserKey(v) != UserKey(us[0])
    ensures forall v :: v in us <==> v == us[0] || v in us[1..]
  {
    var u, rest := us[0], us[1..];
    assert us == [u] + rest && u in us;
    forall v | v in rest ensures v in all && v.uuid != u.uuid && UserKey(v) != UserKey(u) {
      var i :| 0 <= i < |rest| && rest[i] == v;
      assert us[i + 1] == v && v in us;
    }
    forall i, j | 0 <= i < j < |rest| ensures rest[i].uuid != rest[j].uuid {
      assert us[i + 1].uuid != us[j + 1].uuid;
    }
  }

  lemma {:induction false} UnmatchedMeans(m: map<string, nat>, us: seq<UserInfo>, all: set<UserInfo>)
    requires Separates(all) && DrawnFrom(us, all)
    ensures forall u :: u in Unmatched(m, us) <==> u in us && UserKey(u) !in m
    ensures DistinctUuids(Unmatched(m, us))
  {
    if us != [] {
      hide Separates, DrawnFrom;
      RestDrawn(us, all);
      var u, rest := us[0], us[1..];
      if UserKey(u) in m {
        UnmatchedMeans(m - {UserKey(u)}, rest, all);
        assert Unmatched(m, us) == Unmatched(m - {UserKey(u)}, rest);
      } else {
        UnmatchedMeans(m, rest, all);
        var r := Unmatched(m, rest);
        assert Unmatched(m, us) == [u] + r;
        forall i | 0 <= i < |r| ensures r[i].uuid != u.uuid {
          assert r[i] in r;
        }
      }
    }
  }

  /** For users that their keys tell apart the comparison is exact. */
  lemma SeparatedDiffIsExact(old': seq<UserInfo>, new': seq<UserInfo>, deleted: seq<UserInfo>, added: seq<UserInfo>,
                             all: set<UserInfo>)
    requires Separates(all) && DrawnFrom(old', all) && DrawnFrom(new', all) && IsDiff(old', new', deleted, added)
    ensures Exact(old', new', deleted, added)
  {
    var m := LastIndex(old');
    LastIndexMeans(old');
    UnmatchedMeans(m, new', all);
    forall u ensures u in added <==> u in new' && !Lists(old', u.uuid, u.speedLimit) {
      if u in new' {
        KeyListed(old', all, u);
      }
    }
    forall u ensures u in deleted <==> u in old' && !Lists(new', u.uuid, u.speedLimit) {
      DeletedMeans(old', new', deleted, added, all, u);
    }
    forall i, j | 0 <= i < j < |deleted| ensures deleted[i].uuid != deleted[j].uuid {
      var a, b := m[UserKey(deleted[i])], m[UserKey(deleted[j])];
      assert a != b;
    }
  }

  lemma DeletedMeans(old': seq<UserInfo>, new': seq<UserInfo>, deleted: seq<UserInfo>, added: seq<UserInfo>,
                     all: set<UserInfo>, u: UserInfo)
    requires Separates(all) && DrawnFrom(old', all) && DrawnFrom(new', all) && IsDiff(old', new', deleted, added)
    ensures u in deleted <==> u in old' && !Lists(new', u.uuid, u.speedLimit)
  {
    LastIndexMeans(old');
    if u in deleted {
      var i :| 0 <= i < |deleted| && deleted[i] == u;
      assert UserKey(deleted[i]) in KeysOf(deleted);
      assert u in old';
      KeyListed(new', all, u);
    } else if u in old' && !Lists(new', u.uuid, u.speedLimit) {
      AbsentIsDeleted(old', new', deleted, added, all, u);
    }
  }

  lemma AbsentIsDeleted(old': seq<UserInfo>, new': seq<UserInfo>, deleted: seq<UserInfo>, added: seq<UserInfo>,
                        all: set<UserInfo>, u: UserInfo)
    requires Separates(all) && DrawnFrom(old', all) && DrawnFrom(new', all) && IsDiff(old', new', deleted, added)
    requires u in old' && !Lists(new', u.uuid, u.speedLimit)
    ensures u in deleted
  {
    KeyListed(new', all, u);
    var i :| 0 <= i < |old'| && old'[i] == u;
    OnlyPosition(old', all, i);
    assert UserKey(u) in KeysOf(deleted);
    var j :| 0 <= j < |deleted| && UserKey(deleted[j]) == UserKey(u);
    assert deleted[j] == u;
  }

  lemma OnlyPosition(us: seq<UserInfo>, all: set<UserInfo>, i: nat)
    requires Separates(all) && DrawnFrom(us, all) && i < |us|
    ensures UserKey(us[i]) in LastIndex(us) && LastIndex(us)[UserKey(us[i])] == i
  {
    LastIndexMeans(us);
    assert UserKey(us[i]) in KeysOf(us);
    var j := LastIndex(us)[UserKey(us[i])];
    assert us[i] in us && us[j] in us;
  }

  /** Every comparison of lists with distinct uuids drawn from `all` is exact if and only if the keys
      tell the users of `all` apart. */
  lemma DiffIsExactExactly(all: set<UserInfo>)
    ensures Separates(all) <==>
      forall old', new', deleted, added |
        DrawnFrom(old', all) && DrawnFrom(new', all) && IsDiff(old', new', deleted, added) ::
          Exact(old', new', deleted, added)
  {
    hide DrawnFrom, IsDiff, Exact, Separates;
    if Separates(all) {
      forall old', new', deleted, added |
        DrawnFrom(old', all) && DrawnFrom(new', all) && IsDiff(old', new', deleted, added)
        ensures Exact(old', new', deleted, added)
      {
        SeparatedDiffIsExact(old', new', deleted, added, all);
      }
    } else {
      var u, v := Colliding(all);
      CollidingDiff(u, v, all);
    }
  }

  lemma Colliding(all: set<UserInfo>) returns (u: UserInfo, v: UserInfo)
    requires !Separates(all)
    ensures u in all && v in all && UserKey(u) == UserKey(v) && (u.uuid, u.speedLimit) != (v.uuid, v.speedLimit)
  {
    u, v :| u in all && v in all && UserKey(u) == UserKey(v) && !(u.uuid == v.uuid && u.speedLimit == v.speedLimit);
  }

  /** Of two users that share a key but not the pair it stands for, one replaces the other unnoticed. */
  lemma CollidingDiff(u: UserInfo, v: UserInfo, all: set<UserInfo>)
    requires u in all && v in all && UserKey(u) == UserKey(v) && (u.uuid, u.speedLimit) != (v.uuid, v.speedLimit)
    ensures DrawnFrom([u], all) && DrawnFrom([v], all) && IsDiff([u], [v], [], []) && !Exact([u], [v], [], [])
  {
    LastIndexOne([u], 0);
    LastIndexNone();
    assert [u][..0] == [] && [u][..1] == [u] && [v][1..] == [];
    assert LastIndex([u]) == map[UserKey(u) := 0];
    assert [v][0] == v && UserKey([v][0]) in KeysOf([v]);
    assert LastIndex([u]).Keys - KeysOf([v]) == {} == KeysOf([]);
    assert Unmatched(LastIndex([u]), [v]) == Unmatched(LastIndex([u]) - {UserKey(v)}, []);
    assert u in [u] && u !in [];
  }

  /** Users with uuids of one length are told apart. */
  lemma LengthSeparates(old': seq<UserInfo>, new': seq<UserInfo>, n: nat) returns (all: set<UserInfo>)
    requires DistinctUuids(old') && DistinctUuids(new') && UuidLength(old', n) && UuidLength(new', n)
    ensures Separates(all) && DrawnFrom(old', all) && DrawnFrom(new', all)
  {
    all := (set u | u in old') + (set u | u in new');
    forall u, v | u in all && v in all && UserKey(u) == UserKey(v)
      ensures u.uuid == v.uuid && u.speedLimit == v.speedLimit
    {
      UserKeyInjective(u, v);
    }
  }

  /** For lists with distinct uuids of one length the comparison returns exactly the old users
      absent from the new list and the new users absent from the old one, absence being by uuid and
      speed limit, each once. */
  lemma DiffIsExact(old': seq<UserInfo>, new': seq<UserInfo>, deleted: seq<UserInfo>, added: seq<UserInfo>, n: nat)
    requires DistinctUuids(old') && DistinctUuids(new') && UuidLength(old', n) && UuidLength(new', n)
    requires IsDiff(old', new', deleted, added)
    ensures forall u :: u in deleted <==> u in old' && !Lists(new', u.uuid, u.speedLimit)
    ensures forall u :: u in added <==> u in new' && !Lists(old', u.uuid, u.speedLimit)
    ensures DistinctUuids(deleted) && DistinctUuids(added)
  {
    hide IsDiff;
    var all := LengthSeparates(old', new', n);
    SeparatedDiffIsExact(old', new', deleted, added, all);
  }

  ghost function Pairs(us: seq<UserInfo>): set<(string, int)> {
    set u | u in us :: (u.uuid, u.speedLimit)
  }

  /** Taking out the deleted pairs and putting in the added ones turns the old pairs into the new. */
  lemma ExactConverges(old': seq<UserInfo>, new': seq<UserInfo>, deleted: seq<UserInfo>, added: seq<UserInfo>)
    requires Exact(old', new', deleted, added)
    ensures Pairs(old') - Pairs(deleted) + Pairs(added) == Pairs(new')
  {
    forall p | p in Pairs(old') - Pairs(deleted) + Pairs(added) ensures p in Pairs(new') {
      if p !in Pairs(added) {
        var u :| u in old' && (u.uuid, u.speedLimit) == p;
        assert u !in deleted;
        var v :| v in new' && v.uuid == u.uuid && v.speedLimit == u.speedLimit;
      }
    }
    forall p | p in Pairs(new') ensures p in Pairs(old') - Pairs(deleted) + Pairs(added) {
      var v :| v in new' && (v.uuid, v.speedLimit) == p;
      if v !in added {
        var u :| u in old' && u.uuid == v.uuid && u.speedLimit == v.speedLimit;
        forall d | d in deleted ensures (d.uuid, d.speedLimit) != p {
          assert !Lists(new', d.uuid, d.speedLimit);
        }
      }
    }
  }

  lemma DiffConverges(old': seq<UserInfo>, new': seq<UserInfo>, deleted: seq<UserInfo>, added: seq<UserInfo>, n: nat)
    requires DistinctUuids(old') && DistinctUuids(new') && UuidLength(old', n) && UuidLength(new', n)
    requires IsDiff(old', new', deleted, added)
    ensures Pairs(old') - Pairs(deleted) + Pairs(added) == Pairs(new')
  {
    hide IsDiff;
    var all := LengthSeparates(old', new', n);
    SeparatedDiffIsExact(old', new', deleted, added, all);
    hide Exact;
    ExactConverges(old', new', deleted, added);
  }

  /** An exact comparison finds nothing exactly when the pairs are the same; a user whose device limit
      alone has changed is therefore not noticed. */
  lemma ExactFindsNothing(old': seq<UserInfo>, new': seq<UserInfo>, deleted: seq<UserInfo>, added: seq<UserInfo>)
    requires Exact(old', new', deleted, added)
    ensures deleted == [] && added == [] <==> Pairs(old') == Pairs(new')
  {
    ExactConverges(old', new', deleted, added);
    if Pairs(old') == Pairs(new') {
      forall u | u in old' ensures u !in deleted {
        assert (u.uuid, u.speedLimit) in Pairs(old');
        var v :| v in new' && (v.uuid, v.speedLimit) == (u.uuid, u.speedLimit);
      }
      forall v | v in new' ensures v !in added {
        assert (v.uuid, v.speedLimit) in Pairs(new');
        var u :| u in old' && (u.uuid, u.speedLimit) == (v.uuid, v.speedLimit);
      }
      Memberless(deleted);
      Memberless(added);
    } else {
      assert Pairs([]) == {};
    }
  }

  /** So it is for users that their keys tell apart ... */
  lemma NothingFoundWhenSeparated(old': seq<UserInfo>, new': seq<UserInfo>, deleted: seq<UserInfo>,
      added: seq<UserInfo>,
                                  all: set<UserInfo>)
    requires Separates(all) && DrawnFrom(old', all) && DrawnFrom(new', all) && IsDiff(old', new', deleted, added)
    ensures deleted == [] && added == [] <==> Pairs(old') == Pairs(new')
  {
    hide IsDiff, Separates, DrawnFrom, Exact;
    SeparatedDiffIsExact(old', new', deleted, added, all);
    ExactFindsNothing(old', new', deleted, added);
  }

  /** ... and so for uuids of one length. */
  lemma NothingFoundExactly(old': seq<UserInfo>, new': seq<UserInfo>, deleted: seq<UserInfo>, added: seq<UserInfo>,
      n: nat)
    requires DistinctUuids(old') && DistinctUuids(new') && UuidLength(old', n) && UuidLength(new', n)
    requires IsDiff(old', new', deleted, added)
    ensures deleted == [] && added == [] <==> Pairs(old') == Pairs(new')
  {
    hide IsDiff;
    var all := LengthSeparates(old', new', n);
    NothingFoundWhenSeparated(old', new', deleted, added, all);
  }

  lemma Memberless(us: seq<UserInfo>)
    ensures (forall u :: u !in us) ==> us == []
  {
    if us != [] { assert us[0] in us; }
  }

  /** Where keys collide a changed user can go unnoticed: the two lists below have no pair in
      common, and the comparison finds nothing to delete or to add. */
  lemma CollisionGoesUnnoticed(deleted: seq<UserInfo>, added: seq<UserInfo>)
    requires IsDiff([UserInfo(1, "a", 10, 0)], [UserInfo(2, "a1", 0, 0)], deleted, added)
    ensures deleted == [] && added == []
  {
    var u, v := UserInfo(1, "a", 10, 0), UserInfo(2, "a1", 0, 0);
    UserKeysCollide();
    assert [u][..0] == [] && [v][1..] == [];
    assert LastIndex([u]) == map[UserKey(u) := 0];
    assert [v][0] == v && UserKey([v][0]) in KeysOf([v]);
    assert LastIndex([u]).Keys - KeysOf([v]) == {};
    assert KeysOf(deleted) == {};
    if deleted != [] {
      KeysOfPrefix(deleted, 0);
    }
    assert Unmatched(LastIndex([u]), [v]) == Unmatched(LastIndex([u]) - {UserKey(v)}, []);
  }
}
