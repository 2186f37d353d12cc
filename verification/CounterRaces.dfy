/** GetCounter of common/counter/traffic.go under concurrency: a Load, and for a miss a LoadOrStore of
    new counters, interleaved with other calls and with deletions. */
module CounterRaces {

  datatype Phase = Called | Missed | Done(storage: nat)

  datatype Call = Call(uuid: string, phase: Phase)

  /** Counters are numbered as they are allocated; `owner` remembers for whom they were stored. */
  datatype World = World(table: map<string, nat>, calls: map<nat, Call>, made: nat, owner: map<nat, string>)

  datatype Step =
    | Invoke(t: nat, uuid: string)
    | Load(t: nat)
    | LoadOrStore(t: nat)
    | Delete(uuid: string)

  ghost predicate Next(w: World, s: Step, w': World) {
    match s
    case Invoke(t, uuid) => w' == w.(calls := w.calls[t := Call(uuid, Called)])
    case Load(t) =>
      t in w.calls && w.calls[t].phase == Called &&
      var u := w.calls[t].uuid;
      w' == w.(calls := w.calls[t := Call(u, if u in w.table then Done(w.table[u]) else Missed)])
    case LoadOrStore(t) =>
      t in w.calls && w.calls[t].phase == Missed &&
      var u := w.calls[t].uuid;
      if u in w.table then
        w' == w.(calls := w.calls[t := Call(u, Done(w.table[u]))], made := w.made + 1)
      else
        w' == World(w.table[u := w.made], w.calls[t := Call(u, Done(w.made))], w.made + 1,
                    w.owner[w.made := u])
    case Delete(uuid) => w' == w.(table := w.table - {uuid})
  }

  ghost predicate IsRun(ws: seq<World>, ss: seq<Step>) {
    && |ws| == |ss| + 1 && ws[0] == World(map[], map[], 0, map[])
    && forall i | 0 <= i < |ss| :: Next(ws[i], ss[i], ws[i + 1])
  }

  /** Call `t` was made at step `a` and is the latest call of that thread up to state `b`. */
  ghost predicate Spans(ws: seq<World>, ss: seq<Step>, t: nat, uuid: string, a: nat, b: nat) {
    && IsRun(ws, ss) && a < b < |ws| && ss[a] == Invoke(t, uuid)
    && forall k | a < k < b :: !(ss[k].Invoke? && ss[k].t == t)
  }

  /** The call's state at `b`: if it has returned counters, they were the entry at `m`. */
  lemma {:induction false} WasEntry(ws: seq<World>, ss: seq<Step>, t: nat, uuid: string, a: nat, b: nat)
    returns (m: nat)
    requires Spans(ws, ss, t, uuid, a, b)
    ensures t in ws[b].calls && ws[b].calls[t].uuid == uuid && a < m <= b
    ensures var p := ws[b].calls[t].phase; p.Done? ==> uuid in ws[m].table && ws[m].table[uuid] == p.storage
    decreases b
  {
    m := b;
    assert Next(ws[b - 1], ss[b - 1], ws[b]);
    if b > a + 1 {
      var m' := WasEntry(ws, ss, t, uuid, a, b - 1);
      if ws[b].calls[t] == ws[b - 1].calls[t] { m := m'; }
    }
  }

  /** Every call returns counters that were the uuid's entry at some moment during the call. */
  lemma ReturnsAnEntry(ws: seq<World>, ss: seq<Step>, t: nat, uuid: string, a: nat, b: nat)
    requires Spans(ws, ss, t, uuid, a, b)
    ensures t in ws[b].calls && ws[b].calls[t].uuid == uuid
    ensures ws[b].calls[t].phase.Done? ==>
      exists m | a < m <= b :: uuid in ws[m].table && ws[m].table[uuid] == ws[b].calls[t].phase.storage
  {
    var m := WasEntry(ws, ss, t, uuid, a, b);
  }

  lemma {:induction false} EntryStays(ws: seq<World>, ss: seq<Step>, uuid: string, m: nat, k: nat)
    requires IsRun(ws, ss) && m <= k < |ws| && uuid in ws[m].table
    requires forall i | m <= i < k :: ss[i] != Delete(uuid)
    ensures uuid in ws[k].table && ws[k].table[uuid] == ws[m].table[uuid]
    decreases k
  {
    if m < k {
      EntryStays(ws, ss, uuid, m, k - 1);
      assert Next(ws[k - 1], ss[k - 1], ws[k]);
    }
  }

  /** Between two deletions of a uuid all calls for it made and returned there return the same counters, however they
      interleave. */
  lemma SameBetweenDeletions(ws: seq<World>, ss: seq<Step>, uuid: string, t: nat, a: nat, b: nat, t': nat, a': nat,
      b': nat,
      from: nat, to: nat)
    requires Spans(ws, ss, t, uuid, a, b) && Spans(ws, ss, t', uuid, a', b')
    requires from <= a && from <= a' && b <= to && b' <= to < |ws|
    requires forall i | from <= i < to :: ss[i] != Delete(uuid)
    ensures t in ws[b].calls && t' in ws[b'].calls
    ensures ws[b].calls[t].phase.Done? && ws[b'].calls[t'].phase.Done? ==>
      ws[b].calls[t].phase.storage == ws[b'].calls[t'].phase.storage
  {
    var m := WasEntry(ws, ss, t, uuid, a, b);
    var m' := WasEntry(ws, ss, t', uuid, a', b');
    if ws[b].calls[t].phase.Done? && ws[b'].calls[t'].phase.Done? {
      if m <= m' {
        EntryStays(ws, ss, uuid, m, m');
      } else {
        EntryStays(ws, ss, uuid, m', m);
      }
    }
  }

  // ---- No counters shared between users ----

  ghost predicate Owned(w: World) {
    && (forall n | n in w.owner :: n < w.made)
    && (forall u | u in w.table :: w.table[u] in w.owner && w.owner[w.table[u]] == u)
    && (forall t | t in w.calls && w.calls[t].phase.Done? ::
          w.calls[t].phase.storage in w.owner && w.owner[w.calls[t].phase.storage] == w.calls[t].uuid)
  }

  lemma {:induction false} RunKeepsOwned(ws: seq<World>, ss: seq<Step>, k: nat)
    requires IsRun(ws, ss) && k < |ws|
    ensures Owned(ws[k])
  {
    if k > 0 {
      RunKeepsOwned(ws, ss, k - 1);
      StepKeepsOwned(ws[k - 1], ss[k - 1], ws[k]);
    }
  }

  lemma StepKeepsOwned(w: World, s: Step, w': World)
    requires Next(w, s, w') && Owned(w)
    ensures Owned(w')
  {
  }

  /** Calls for different uuids never return the same counters, deletions or not. */
  lemma NeverShared(ws: seq<World>, ss: seq<Step>, k: nat, t: nat, t': nat)
    requires IsRun(ws, ss) && k < |ws| && t in ws[k].calls && t' in ws[k].calls
    requires ws[k].calls[t].phase.Done? && ws[k].calls[t'].phase.Done?
    requires ws[k].calls[t].phase.storage == ws[k].calls[t'].phase.storage
    ensures ws[k].calls[t].uuid == ws[k].calls[t'].uuid
  {
    RunKeepsOwned(ws, ss, k);
  }

  /** A call that finds an entry returns it at once and allocates nothing. */
  lemma HitReturnsAtOnce(w: World, t: nat, w': World)
    requires Next(w, Load(t), w') && w.calls[t].uuid in w.table
    ensures w'.calls[t] == Call(w.calls[t].uuid, Done(w.table[w.calls[t].uuid]))
    ensures w'.made == w.made && w'.table == w.table
  {
  }

  // ---- A deletion takes the counters out for good ----

  /** After a deletion the uuid has no entry, or one that was allocated since. */
  lemma {:induction false} EntryIsNew(ws: seq<World>, ss: seq<Step>, uuid: string, d: nat, k: nat)
    requires IsRun(ws, ss) && d < k < |ws| && ss[d] == Delete(uuid)
    ensures ws[d].made <= ws[k].made && (uuid in ws[k].table ==> ws[d].made <= ws[k].table[uuid])
    decreases k
  {
    assert Next(ws[k - 1], ss[k - 1], ws[k]);
    if k > d + 1 {
      EntryIsNew(ws, ss, uuid, d, k - 1);
    }
  }

  /** A call made after a deletion of its uuid returns none of the counters that any call had returned before it. */
  lemma NewAfterDeletion(ws: seq<World>, ss: seq<Step>, t: nat, uuid: string, a: nat, b: nat, d: nat, t': nat)
    requires Spans(ws, ss, t, uuid, a, b) && d < a && ss[d] == Delete(uuid)
    requires t in ws[b].calls && ws[b].calls[t].phase.Done? && t' in ws[d].calls && ws[d].calls[t'].phase.Done?
    ensures ws[b].calls[t].phase.storage != ws[d].calls[t'].phase.storage
  {
    var m := WasEntry(ws, ss, t, uuid, a, b);
    EntryIsNew(ws, ss, uuid, d, m);
    RunKeepsOwned(ws, ss, d);
  }
}
