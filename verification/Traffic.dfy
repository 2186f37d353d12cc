/** Where the counted bytes go: the books of one tag over a run of connections, slices and user changes. */
module Traffic {
  import opened Formats
  import opened Sing

  /** The sum over all entries. */
  ghost function Total(c: map<string, Amount>): Amount {
    if c == map[] then ZERO
    else
      var u :| u in c;
      c[u].Plus(Total(c - {u}))
  }

  lemma TotalFirst(c: map<string, Amount>) returns (u: string)
    requires c != map[]
    ensures u in c && Total(c) == c[u].Plus(Total(c - {u}))
  {
    u :| u in c && Total(c) == c[u].Plus(Total(c - {u}));
  }

  /** Any entry can be taken out first. */
  lemma {:induction false} TotalWithout(c: map<string, Amount>, u: string)
    requires u in c
    ensures Total(c) == c[u].Plus(Total(c - {u}))
    decreases |c|
  {
    hide Total;
    var v := TotalFirst(c);
    if u != v {
      TotalWithout(c - {v}, u);
      TotalWithout(c - {u}, v);
      assert c - {v} - {u} == c - {u} - {v};
      assert (c - {v})[u] == c[u] && (c - {u})[v] == c[v];
    }
  }

  lemma TotalUpdate(c: map<string, Amount>, u: string, a: Amount)
    ensures Total(c[u := a]) == a.Plus(Total(c - {u}))
  {
    TotalWithout(c[u := a], u);
    assert c[u := a] - {u} == c - {u};
  }

  ghost function Restrict(c: map<string, Amount>, keys: set<string>): map<string, Amount> {
    map u | u in c && u in keys :: c[u]
  }

  lemma {:induction false} TotalSplit(c: map<string, Amount>, keys: set<string>)
    ensures Total(c) == Total(c - keys).Plus(Total(Restrict(c, keys)))
    decreases |c|
  {
    if c == map[] {
      assert c - keys == map[] && Restrict(c, keys) == map[];
    } else {
      var u :| u in c;
      var rest := c - {u};
      TotalSplit(rest, keys);
      hide Total;
      TotalWithout(c, u);
      if u in keys {
        assert rest - keys == c - keys;
        TotalWithout(Restrict(c, keys), u);
        assert Restrict(c, keys) - {u} == Restrict(rest, keys);
      } else {
        assert Restrict(rest, keys) == Restrict(c, keys);
        TotalWithout(c - keys, u);
        assert c - keys - {u} == rest - keys;
      }
    }
  }

  function RowTotal(rows: seq<UserTraffic>): Amount {
    if rows == [] then ZERO
    else Amount(rows[|rows| - 1].upload, rows[|rows| - 1].download).Plus(RowTotal(rows[..|rows| - 1]))
  }

  lemma {:induction false} RowTotalConcat(a: seq<UserTraffic>, b: seq<UserTraffic>)
    ensures RowTotal(a + b) == RowTotal(a).Plus(RowTotal(b))
  {
    if b == [] {
      assert a + b == a;
    } else {
      assert (a + b)[..|a + b| - 1] == a + b[..|b| - 1];
      RowTotalConcat(a, b[..|b| - 1]);
    }
  }

  /** The entries a slice deletes: of unknown users, above the threshold. */
  ghost function Dropped(uidMap: map<string, int>, min: int, c: map<string, Amount>): map<string, Amount> {
    map u | u in c && Drops(uidMap, min, c, u) :: c[u]
  }

  /** One slice returns, keeps or drops every byte that was pending. */
  lemma SliceConserves(uidMap: map<string, int>, min: int, c: map<string, Amount>, rows: seq<UserTraffic>)
    requires IsSlice(uidMap, min, c, rows)
    ensures Total(c) ==
      RowTotal(rows).Plus(Total(SliceRest(uidMap, min, true, c, {}))).Plus(Total(Dropped(uidMap, min, c)))
  {
    var order :| Enumerates(order, c.Keys) && rows == SliceRows(uidMap, min, c, order);
    VisitConserves(uidMap, min, c, order);
    assert Seen(order) == c.Keys;
    hide Total, RowTotal, SliceRows;
    RestrictAll(c, c.Keys);
    RestrictAll(SliceRest(uidMap, min, true, c, {}), c.Keys);
    RestrictAll(Dropped(uidMap, min, c), c.Keys);
  }

  lemma RestrictAll(c: map<string, Amount>, keys: set<string>)
    requires c.Keys <= keys
    ensures Restrict(c, keys) == c
  {
  }

  lemma RestrictOne(c: map<string, Amount>, keys: set<string>, u: string)
    requires u !in keys
    ensures Total(Restrict(c, keys + {u})) == (if u in c then c[u] else ZERO).Plus(Total(Restrict(c, keys)))
  {
    hide Total;
    var r := Restrict(c, keys + {u});
    if u in c {
      TotalWithout(r, u);
      assert r - {u} == Restrict(c, keys);
    } else {
      assert r == Restrict(c, keys);
    }
  }

  ghost function Seen(order: seq<string>): set<string> {
    set u | u in order
  }

  /** The seen entries of `c` went to the rows, to what is kept and to what is dropped. */
  ghost predicate Conserved(uidMap: map<string, int>, min: int, c: map<string, Amount>, seen: set<string>,
      rows: seq<UserTraffic>) {
    Total(Restrict(c, seen)) == RowTotal(rows)
      .Plus(Total(Restrict(SliceRest(uidMap, min, true, c, {}), seen)))
      .Plus(Total(Restrict(Dropped(uidMap, min, c), seen)))
  }

  /** An entry above zero goes to its row, to what is kept or to what is dropped. */
  lemma EntrySplits(uidMap: map<string, int>, min: int, c: map<string, Amount>, u: string)
    requires u in c
    ensures var rest, dropped := SliceRest(uidMap, min, true, c, {}), Dropped(uidMap, min, c);
            c[u] == RowTotal(RowsFor(uidMap, min, c, u))
              .Plus(if u in rest then rest[u] else ZERO).Plus(if u in dropped then dropped[u] else ZERO)
  {
    hide RowsFor, RowTotal, UidOf;
    RowTotalFor(uidMap, min, c, u);
    var rest, dropped := SliceRest(uidMap, min, true, c, {}), Dropped(uidMap, min, c);
    assert (if u in rest then rest[u] else ZERO) == if !Reports(c[u], min) then c[u] else ZERO;
    assert (if u in dropped then dropped[u] else ZERO) == if Drops(uidMap, min, c, u) then c[u] else ZERO;
  }

  lemma VisitAdds(uidMap: map<string, int>, min: int, c: map<string, Amount>, seen: set<string>, u: string,
      rows: seq<UserTraffic>, row: seq<UserTraffic>)
    requires u in c && u !in seen && row == RowsFor(uidMap, min, c, u)
    requires Conserved(uidMap, min, c, seen, rows) && RowTotal(rows + row) == RowTotal(rows).Plus(RowTotal(row))
    ensures Conserved(uidMap, min, c, seen + {u}, rows + row)
  {
    hide Total, RowTotal, SliceRest, Dropped, Restrict, RowsFor, Reports, Drops, UidOf;
    var rest, dropped := SliceRest(uidMap, min, true, c, {}), Dropped(uidMap, min, c);
    EntrySplits(uidMap, min, c, u);
    RestrictOne(c, seen, u);
    RestrictOne(rest, seen, u);
    RestrictOne(dropped, seen, u);
  }

  lemma {:induction false} VisitConserves(uidMap: map<string, int>, min: int, c: map<string, Amount>,
      order: seq<string>)
    requires forall u | u in order :: u in c
    requires forall i, j | 0 <= i < j < |order| :: order[i] != order[j]
    ensures Conserved(uidMap, min, c, Seen(order), SliceRows(uidMap, min, c, order))
  {
    hide Conserved, Seen, RowTotal, SliceRows, RowsFor;
    if order == [] {
      ConservedNothing(uidMap, min, c);
    } else {
      var init, u := order[..|order| - 1], order[|order| - 1];
      SeenOne(order);
      VisitConserves(uidMap, min, c, init);
      SliceRowsLast(uidMap, min, c, order);
      RowTotalConcat(SliceRows(uidMap, min, c, init), RowsFor(uidMap, min, c, u));
      VisitAdds(uidMap, min, c, Seen(init), u, SliceRows(uidMap, min, c, init), RowsFor(uidMap, min, c, u));
    }
  }

  lemma ConservedNothing(uidMap: map<string, int>, min: int, c: map<string, Amount>)
    ensures Conserved(uidMap, min, c, Seen([]), SliceRows(uidMap, min, c, []))
  {
    hide Dropped, SliceRest;
    NothingSeen(c);
    NothingSeen(SliceRest(uidMap, min, true, c, {}));
    NothingSeen(Dropped(uidMap, min, c));
  }

  lemma SliceRowsLast(uidMap: map<string, int>, min: int, c: map<string, Amount>, order: seq<string>)
    requires order != [] && forall u | u in order :: u in c
    ensures var init, u := order[..|order| - 1], order[|order| - 1];
            SliceRows(uidMap, min, c, order) == SliceRows(uidMap, min, c, init) + RowsFor(uidMap, min, c, u)
  {
  }

  lemma SeenOne(order: seq<string>)
    requires order != [] && forall i, j | 0 <= i < j < |order| :: order[i] != order[j]
    ensures var init, u := order[..|order| - 1], order[|order| - 1];
            Seen(order) == Seen(init) + {u} && u !in Seen(init)
  {
    assert order == order[..|order| - 1] + [order[|order| - 1]];
  }

  lemma NothingSeen(c: map<string, Amount>)
    ensures Total(Restrict(c, Seen([]))) == ZERO
  {
    assert Restrict(c, Seen([])) == map[];
  }

  lemma RowTotalFor(uidMap: map<string, int>, min: int, c: map<string, Amount>, u: string)
    requires u in c
    ensures RowTotal(RowsFor(uidMap, min, c, u)) == if Reports(c[u], min) && UidOf(uidMap, u) != 0 then c[u] else ZERO
  {
  }

  // ---- Runs ----

  /** The counters of a tag, and where the bytes counted so far have gone.  Counters that a connection
      still holds after their entry was deleted are orphans: what they count is lost. */
  datatype Books = Books(live: map<string, Amount>, uidMap: map<string, int>, counted: Amount, returned: Amount,
      discarded: Amount)

  datatype Event =
    | Connect(uuid: string)
    | Count(uuid: string, n: Amount)
    | CountOrphan(n: Amount)
    | Slice(min: int, rows: seq<UserTraffic>)
    | AddUsers(users: seq<UserInfo>)
    | DelUsers(users: seq<UserInfo>)

  ghost predicate Next(b: Books, e: Event, b': Books) {
    match e
    case Connect(uuid) => b' == if uuid in b.live then b else b.(live := b.live[uuid := ZERO])
    case Count(uuid, n) =>
      uuid in b.live && b' == b.(live := b.live[uuid := b.live[uuid].Plus(n)], counted := b.counted.Plus(n))
    case CountOrphan(n) => b' == b.(counted := b.counted.Plus(n), discarded := b.discarded.Plus(n))
    case Slice(min, rows) =>
      && IsSlice(b.uidMap, min, b.live, rows)
      && b' == b.(live := SliceRest(b.uidMap, min, true, b.live, {}),
                  returned := b.returned.Plus(RowTotal(rows)),
                  discarded := b.discarded.Plus(Total(Dropped(b.uidMap, min, b.live))))
    case AddUsers(users) => b' == b.(uidMap := WithUids(b.uidMap, users))
    case DelUsers(users) =>
      b' == b.(live := b.live - Uuids(users), uidMap := b.uidMap - Uuids(users),
               discarded := b.discarded.Plus(Total(Restrict(b.live, Uuids(users)))))
  }

  ghost predicate Balanced(b: Books) {
    b.counted == b.returned.Plus(b.discarded).Plus(Total(b.live))
  }

  lemma StepBalances(b: Books, e: Event, b': Books)
    requires Next(b, e, b') && Balanced(b)
    ensures Balanced(b')
  {
    hide Total, RowTotal, IsSlice, SliceRest, Dropped, Restrict;
    match e
    case Connect(uuid) =>
      if uuid !in b.live {
        TotalUpdate(b.live, uuid, ZERO);
        assert b.live - {uuid} == b.live;
      }
    case Count(uuid, n) =>
      TotalUpdate(b.live, uuid, b.live[uuid].Plus(n));
      TotalWithout(b.live, uuid);
    case CountOrphan(n) =>
    case Slice(min, rows) => SliceConserves(b.uidMap, min, b.live, rows);
    case AddUsers(users) =>
    case DelUsers(users) => TotalSplit(b.live, Uuids(users));
  }

  /** The main result on bytes: in every run the bytes counted are the bytes returned in slices, the
      bytes discarded and the bytes pending, uploads and downloads each for themselves. */
  lemma {:induction false} BooksBalance(bs: seq<Books>, es: seq<Event>, k: nat)
    requires |bs| == |es| + 1 && forall i | 0 <= i < |es| :: Next(bs[i], es[i], bs[i + 1])
    requires Balanced(bs[0]) && k < |bs|
    ensures Balanced(bs[k])
  {
    if k > 0 {
      BooksBalance(bs, es, k - 1);
      StepBalances(bs[k - 1], es[k - 1], bs[k]);
    }
  }

  // ---- The proxy core keeps these books ----

  /** The books are those of the tag in the core. */
  ghost predicate Shows(server: Sing, tag: string, b: Books)
    reads server, server.Storages(tag)
  {
    b.live == server.Contents(tag) && b.uidMap == server.uidMap
  }

  /** A slice with reset is the step of that name. */
  method SliceStep(server: Sing, tag: string, ghost b: Books) returns (rows: seq<UserTraffic>, ghost b': Books)
    requires server.Valid() && Shows(server, tag, b)
    modifies server`counters, server.Storages(tag)
    ensures server.Valid() && Shows(server, tag, b') && Next(b, Slice(server.MinTraffic(tag), rows), b')
  {
    hide Total, RowTotal, IsSlice, SliceRest, Dropped, Sing.Contents, Sing.Storages, Sing.Valid;
    ghost var named;
    rows, named := server.GetUserTrafficSlice(tag, true);
    b' := b.(live := server.Contents(tag), returned := b.returned.Plus(RowTotal(rows)),
             discarded := b.discarded.Plus(Total(Dropped(b.uidMap, server.MinTraffic(tag), b.live))));
  }

  /** So is a deletion of users, whether or not the inbound gives them up; without an inbound it is nothing. */
  method DelStep(server: Sing, tag: string, users: seq<UserInfo>, accepted: bool, ghost b: Books)
    returns (ghost b': Books)
    requires server.Valid() && Shows(server, tag, b)
    modifies server`inbounds, server`uidMap, server`counters
    ensures server.Valid() && Shows(server, tag, b')
    ensures if tag in old(server.inbounds) then Next(b, DelUsers(users), b') else b' == b
  {
    hide Total, Restrict, Uuids;
    var ok := server.DelUsers(users, tag, accepted);
    b' := b;
    if tag in old(server.inbounds) {
      b' := b.(live := b.live - Uuids(users), uidMap := b.uidMap - Uuids(users),
               discarded := b.discarded.Plus(Total(Restrict(b.live, Uuids(users)))));
    }
    assert b'.live == server.Contents(tag);
  }

  method AddStep(server: Sing, tag: string, users: seq<UserInfo>, accepted: bool, ghost b: Books)
    returns (ghost b': Books)
    requires server.Valid() && Shows(server, tag, b)
    modifies server`inbounds, server`uidMap
    ensures server.Valid() && Shows(server, tag, b')
    ensures if tag in old(server.inbounds) then Next(b, AddUsers(users), b') else b' == b
  {
    hide WithUids, Uuids;
    var ok := server.AddUsers(tag, users, accepted);
    b' := b.(uidMap := server.uidMap);
  }

  /** A connection gets its counters ... */
  method ConnectStep(server: Sing, tag: string, uuid: string, ghost b: Books)
    returns (s: TrafficStorage, ghost b': Books)
    requires server.Valid() && Shows(server, tag, b)
    modifies server`counters
    ensures server.Valid() && Shows(server, tag, b') && Next(b, Connect(uuid), b')
    ensures tag in server.counters && uuid in server.counters[tag] && s == server.counters[tag][uuid]
  {
    hide Sing.Valid, Total, RowTotal, IsSlice, SliceRest, Dropped, Restrict, Uuids, WithUids;
    s := server.GetCounter(tag, uuid);
    b' := if uuid in b.live then b else b.(live := b.live[uuid := ZERO]);
    assert b'.live == server.Contents(tag);
  }

  lemma OnlyOwner(server: Sing, tag: string, uuid: string)
    requires server.Valid() && tag in server.counters && uuid in server.counters[tag]
    ensures var c := server.counters[tag]; forall u | u in c && u != uuid :: c[u] != c[uuid]
  {
  }

  /** ... and adds to them. */
  method CountStep(server: Sing, tag: string, uuid: string, s: TrafficStorage, n: Amount, ghost b: Books)
    returns (ghost b': Books)
    requires server.Valid() && Shows(server, tag, b)
    requires tag in server.counters && uuid in server.counters[tag] && s == server.counters[tag][uuid]
    modifies s
    ensures server.Valid() && Shows(server, tag, b') && Next(b, Count(uuid, n), b')
  {
    hide Total, RowTotal, IsSlice, SliceRest, Dropped, Restrict, Uuids, WithUids, Sing.Valid;
    OnlyOwner(server, tag, uuid);
    s.up, s.down := s.up + n.up, s.down + n.down;
    b' := b.(live := b.live[uuid := b.live[uuid].Plus(n)], counted := b.counted.Plus(n));
    assert b'.live == server.Contents(tag);
  }
}
