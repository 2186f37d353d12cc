/** The periodic task of common/task/task.go: Start, Close and any number of worker goroutines,
    interleaved.  Start and Close hold the lock and are one step each; a worker reads `stop` when it
    enters its select, and then waits on that channel. */
module TaskRaces {

  datatype Worker =
    | Ready(first: bool)
    | Executing
    | Selecting
    | Waiting(channel: nat)

  /** Channels are numbered as they are made; `stop` is the current one.  `abandoned` remembers the
      channels that were current when a worker failed and cleared `running`. */
  datatype World = World(
    running: bool, stop: nat, made: nat, closed: set<nat>, workers: map<nat, Worker>, abandoned: set<nat>,
    panicked: bool)

  const INITIAL: World := World(false, 0, 0, {}, map[], {}, false)

  datatype Step =
    | Start(w: nat, first: bool)  // `w` names the goroutine, should there be one
    | Close
    | Begin(w: nat)
    | Enter(w: nat)
    | Tick(w: nat)
    | Stop(w: nat)
    | Succeed(w: nat)
    | Fail(w: nat)

  function Started(s: World, w: nat, first: bool): World {
    if s.running then s
    else s.(running := true, stop := s.made, made := s.made + 1, workers := s.workers[w := Ready(first)])
  }

  /** Closing a closed channel panics. */
  function Closed(s: World): World {
    if !s.running then s
    else if s.stop in s.closed then s.(running := false, panicked := true)
    else s.(running := false, closed := s.closed + {s.stop})
  }

  predicate CanStop(s: World, w: nat) {
    w in s.workers && s.workers[w].Waiting? && s.workers[w].channel in s.closed
  }

  ghost predicate Next(s: World, t: Step, s': World) {
    match t
    case Start(w, first) => w !in s.workers && s' == Started(s, w, first)
    case Close => s' == Closed(s)
    case Begin(w) =>
      w in s.workers && s.workers[w].Ready? &&
      s' == s.(workers := s.workers[w := if s.workers[w].first then Executing else Selecting])
    case Enter(w) =>
      w in s.workers && s.workers[w] == Selecting && s' == s.(workers := s.workers[w := Waiting(s.stop)])
    case Tick(w) =>
      w in s.workers && s.workers[w].Waiting? && s' == s.(workers := s.workers[w := Executing])
    case Stop(w) => CanStop(s, w) && s' == s.(workers := s.workers - {w})
    case Succeed(w) =>
      w in s.workers && s.workers[w] == Executing && s' == s.(workers := s.workers[w := Selecting])
    case Fail(w) =>
      w in s.workers && s.workers[w] == Executing &&
      s' == s.(workers := s.workers - {w}, running := false,
               abandoned := if s.running then s.abandoned + {s.stop} else s.abandoned)
  }

  ghost predicate IsRun(ss: seq<World>, ts: seq<Step>) {
    && |ss| == |ts| + 1 && ss[0] == INITIAL
    && forall i | 0 <= i < |ts| :: Next(ss[i], ts[i], ss[i + 1])
  }

  /** Exactly the current channel of a running task and the abandoned ones are open. */
  ghost predicate Inv(s: World) {
    && !s.panicked
    && (s.running ==> s.stop < s.made && s.stop !in s.abandoned)
    && (s.made == 0 ==> s.workers == map[] && !s.running)
    && (s.made > 0 ==> s.stop < s.made)
    && (forall c | c in s.closed || c in s.abandoned :: c < s.made)
    && (forall c | 0 <= c < s.made :: c !in s.closed <==> (s.running && c == s.stop) || c in s.abandoned)
    && (forall w | w in s.workers && s.workers[w].Waiting? :: s.workers[w].channel < s.made)
  }

  lemma StepKeepsInv(s: World, t: Step, s': World)
    requires Next(s, t, s') && Inv(s)
    ensures Inv(s')
  {
    assert t.Start? && !s.running ==> s.made !in s.closed && s.made !in s.abandoned;
  }

  lemma {:induction false} RunKeepsInv(ss: seq<World>, ts: seq<Step>, k: nat)
    requires IsRun(ss, ts) && k < |ss|
    ensures Inv(ss[k])
  {
    if k > 0 {
      RunKeepsInv(ss, ts, k - 1);
      StepKeepsInv(ss[k - 1], ts[k - 1], ss[k]);
    }
  }

  /** In no run is a closed channel closed again. */
  lemma NeverPanics(ss: seq<World>, ts: seq<Step>, k: nat)
    requires IsRun(ss, ts) && k < |ss|
    ensures !ss[k].panicked
  {
    RunKeepsInv(ss, ts, k);
  }

  /** In every reachable state with the task not running, a waiting worker can leave exactly when its
      channel was not abandoned; a worker about to wait would wait on a channel of which the same holds. */
  lemma LeavesExactly(ss: seq<World>, ts: seq<Step>, k: nat, w: nat)
    requires IsRun(ss, ts) && k < |ss| && !ss[k].running && w in ss[k].workers
    ensures ss[k].workers[w].Waiting? ==> (CanStop(ss[k], w) <==> ss[k].workers[w].channel !in ss[k].abandoned)
    ensures ss[k].stop in ss[k].closed <==> ss[k].stop !in ss[k].abandoned
  {
    RunKeepsInv(ss, ts, k);
  }

  lemma {:induction false} NothingAbandoned(ss: seq<World>, ts: seq<Step>, k: nat)
    requires IsRun(ss, ts) && k < |ss| && forall i | 0 <= i < k :: !ts[i].Fail?
    ensures ss[k].abandoned == {}
  {
    if k > 0 {
      NothingAbandoned(ss, ts, k - 1);
      assert Next(ss[k - 1], ts[k - 1], ss[k]);
    }
  }

  /** Without failing executions every channel but the current one of a running task is closed, so
      once the task is not running every worker that waits can leave, and every worker that will wait
      will be able to. */
  lemma StopsWithoutFailures(ss: seq<World>, ts: seq<Step>, k: nat)
    requires IsRun(ss, ts) && k < |ss| && forall i | 0 <= i < k :: !ts[i].Fail?
    ensures forall c | 0 <= c < ss[k].made :: c !in ss[k].closed <==> ss[k].running && c == ss[k].stop
    ensures !ss[k].running ==> forall w | w in ss[k].workers :: ss[k].workers[w].Waiting? ==> CanStop(ss[k], w)
    ensures !ss[k].running && ss[k].workers != map[] ==> ss[k].stop in ss[k].closed
  {
    RunKeepsInv(ss, ts, k);
    NothingAbandoned(ss, ts, k);
  }

  // ---- When there is one worker ----

  /** The task is started while a worker of an earlier start is still alive. */
  predicate Overlaps(s: World, t: Step) {
    t.Start? && !s.running && s.workers != map[]
  }

  /** From at most one worker, a step leads to at most one unless it is such a start. */
  lemma StepKeepsOneExactly(s: World, t: Step, s': World)
    requires Next(s, t, s') && |s.workers| <= 1
    ensures |s'.workers| <= 1 <==> !Overlaps(s, t)
  {
    if !t.Start? || s.running {
      assert s'.workers.Keys <= s.workers.Keys;
      Fewer(s'.workers.Keys, s.workers.Keys);
      assert |s'.workers| == |s'.workers.Keys| && |s.workers| == |s.workers.Keys|;
    } else if s.workers != map[] {
      assert s'.workers.Keys == s.workers.Keys + {t.w};
      assert |s'.workers| == |s'.workers.Keys| && |s.workers| == |s.workers.Keys|;
    }
  }

  lemma Fewer(a: set<nat>, b: set<nat>)
    requires a <= b
    ensures |a| <= |b|
  {
    assert b == a + (b - a);
  }

  lemma {:induction false} OneWorkerUpTo(ss: seq<World>, ts: seq<Step>, k: nat)
    requires IsRun(ss, ts) && k < |ss| && forall i | 0 <= i < k :: !Overlaps(ss[i], ts[i])
    ensures |ss[k].workers| <= 1
  {
    if k > 0 {
      OneWorkerUpTo(ss, ts, k - 1);
      StepKeepsOneExactly(ss[k - 1], ts[k - 1], ss[k]);
    }
  }

  /** All along a run there is at most one worker if and only if the task is never started, while not
      running, beside a worker that is still alive. */
  lemma OneWorkerExactly(ss: seq<World>, ts: seq<Step>)
    requires IsRun(ss, ts)
    ensures (forall k | 0 <= k < |ss| :: |ss[k].workers| <= 1) <==>
      (forall i | 0 <= i < |ts| :: !Overlaps(ss[i], ts[i]))
  {
    hide Next, Overlaps;
    if forall k | 0 <= k < |ss| :: |ss[k].workers| <= 1 {
      forall i | 0 <= i < |ts| ensures !Overlaps(ss[i], ts[i]) {
        assert |ss[i + 1].workers| <= 1;
        StepKeepsOneExactly(ss[i], ts[i], ss[i + 1]);
      }
    }
    if forall i | 0 <= i < |ts| :: !Overlaps(ss[i], ts[i]) {
      forall k | 0 <= k < |ss| ensures |ss[k].workers| <= 1 {
        OneWorkerUpTo(ss, ts, k);
      }
    }
  }

  /** A worker that waits does so on the current channel, and that channel was not abandoned. */
  ghost predicate OnCurrent(s: World) {
    && (s.workers != map[] ==> s.stop !in s.abandoned)
    && (forall w | w in s.workers && s.workers[w].Waiting? :: s.workers[w].channel == s.stop)
  }

  lemma StepKeepsOnCurrent(s: World, t: Step, s': World)
    requires Next(s, t, s') && Inv(s) && OnCurrent(s) && |s.workers| <= 1 && !Overlaps(s, t)
    ensures OnCurrent(s')
  {
    if t.Fail? {
      assert s.workers.Keys == {t.w} by {
        assert s.workers.Keys == {t.w} + (s.workers.Keys - {t.w});
        assert |s.workers| == |s.workers.Keys|;
      }
      assert s'.workers.Keys == {};
    }
  }

  lemma {:induction false} OnCurrentUpTo(ss: seq<World>, ts: seq<Step>, k: nat)
    requires IsRun(ss, ts) && k < |ss| && forall i | 0 <= i < k :: !Overlaps(ss[i], ts[i])
    ensures OnCurrent(ss[k])
  {
    if k > 0 {
      OnCurrentUpTo(ss, ts, k - 1);
      OneWorkerUpTo(ss, ts, k - 1);
      RunKeepsInv(ss, ts, k - 1);
      StepKeepsOnCurrent(ss[k - 1], ts[k - 1], ss[k]);
    }
  }

  /** Without such starts Close does what it is for, failing executions or not: once the task is not
      running, its worker can leave if it waits, and will wait on a closed channel if it does not. */
  lemma CloseStopsWithoutOverlap(ss: seq<World>, ts: seq<Step>, k: nat, w: nat)
    requires IsRun(ss, ts) && k < |ss| && !ss[k].running && w in ss[k].workers
    requires forall i | 0 <= i < k :: !Overlaps(ss[i], ts[i])
    ensures ss[k].stop in ss[k].closed && (ss[k].workers[w].Waiting? ==> CanStop(ss[k], w))
  {
    RunKeepsInv(ss, ts, k);
    OnCurrentUpTo(ss, ts, k);
  }

  // ---- When closing stops every worker ----

  /** No worker waits on an abandoned channel. */
  ghost predicate NoneStranded(s: World) {
    forall w | w in s.workers && s.workers[w].Waiting? :: s.workers[w].channel !in s.abandoned
  }

  /** Once the task is not running, every worker that waits can leave. */
  ghost predicate AllCanLeave(s: World) {
    !s.running ==> forall w | w in s.workers && s.workers[w].Waiting? :: CanStop(s, w)
  }

  /** A worker fails under a running task while another one waits on the current channel, or enters its
      select when the current channel has been abandoned. */
  ghost predicate Strands(s: World, t: Step) {
    || (t.Fail? && s.running && exists w :: w in s.workers && w != t.w && s.workers[w] == Waiting(s.stop))
    || (t.Enter? && s.stop in s.abandoned)
  }

  lemma StepStrandsExactly(s: World, t: Step, s': World)
    requires Next(s, t, s') && Inv(s) && NoneStranded(s)
    ensures NoneStranded(s') <==> !Strands(s, t)
    ensures Strands(s, t) ==> !AllCanLeave(s')
  {
    StepKeepsInv(s, t, s');
    if t.Fail? && Strands(s, t) {
      var w :| w in s.workers && w != t.w && s.workers[w] == Waiting(s.stop);
      assert s'.workers[w] == Waiting(s.stop) && s.stop in s'.abandoned;
    } else if t.Enter? && Strands(s, t) {
      assert s'.workers[t.w] == Waiting(s.stop) && s.stop in s'.abandoned;
    } else {
      forall w | w in s'.workers && s'.workers[w].Waiting? ensures s'.workers[w].channel !in s'.abandoned {
        if t.Fail? {
          assert w in s.workers && w != t.w && s.workers[w] == s'.workers[w];
        }
      }
    }
  }

  lemma UnstrandedCanLeave(s: World)
    requires Inv(s) && NoneStranded(s)
    ensures AllCanLeave(s)
  {
  }

  lemma {:induction false} NoneStrandedUpTo(ss: seq<World>, ts: seq<Step>, k: nat)
    requires IsRun(ss, ts) && k < |ss|
    requires (forall i | 0 <= i < k :: !Strands(ss[i], ts[i])) || (forall j | 0 <= j <= k :: AllCanLeave(ss[j]))
    ensures NoneStranded(ss[k]) && Inv(ss[k])
  {
    hide Next, Inv, Strands, AllCanLeave;
    RunKeepsInv(ss, ts, k);
    if k > 0 {
      NoneStrandedUpTo(ss, ts, k - 1);
      StepStrandsExactly(ss[k - 1], ts[k - 1], ss[k]);
    }
  }

  /** In every run, all workers that wait can leave whenever the task is not running, if and only if no
      worker fails beside one that waits on the current channel or comes to wait on an abandoned one. */
  lemma AllCanLeaveExactly(ss: seq<World>, ts: seq<Step>)
    requires IsRun(ss, ts)
    ensures (forall k | 0 <= k < |ss| :: AllCanLeave(ss[k])) <==> (forall i | 0 <= i < |ts| :: !Strands(ss[i], ts[i]))
  {
    hide Next, Inv, Strands, AllCanLeave, NoneStranded;
    if forall k | 0 <= k < |ss| :: AllCanLeave(ss[k]) {
      forall i | 0 <= i < |ts| ensures !Strands(ss[i], ts[i]) {
        NoneStrandedUpTo(ss, ts, i);
        StepStrandsExactly(ss[i], ts[i], ss[i + 1]);
        assert AllCanLeave(ss[i + 1]);
      }
    }
    if forall i | 0 <= i < |ts| :: !Strands(ss[i], ts[i]) {
      forall k | 0 <= k < |ss| ensures AllCanLeave(ss[k]) {
        NoneStrandedUpTo(ss, ts, k);
        UnstrandedCanLeave(ss[k]);
      }
    }
  }

  // ---- What a worker does by itself ----

  /** Whatever state the task is in, each worker can come to execute by steps of its own, and nothing else changes. */
  lemma ComesToExecute(s: World, w: nat) returns (ss: seq<World>, ts: seq<Step>)
    requires w in s.workers
    ensures |ss| == |ts| + 1 && ss[0] == s && forall i | 0 <= i < |ts| :: Next(ss[i], ts[i], ss[i + 1])
    ensures forall t | t in ts :: t in {Begin(w), Enter(w), Tick(w)}
    ensures ss[|ts|] == s.(workers := s.workers[w := Executing])
    decreases s.workers[w].Ready?
  {
    match s.workers[w]
    case Executing =>
      ss, ts := [s], [];
      assert s.workers[w := Executing] == s.workers;
    case Ready(first) =>
      var s1 := s.(workers := s.workers[w := if first then Executing else Selecting]);
      if first {
        ss, ts := [s, s1], [Begin(w)];
      } else {
        ss, ts := ComesToExecute(s1, w);
        ss, ts := [s] + ss, [Begin(w)] + ts;
        assert s1.workers[w := Executing] == s.workers[w := Executing];
      }
    case Selecting =>
      var s1 := s.(workers := s.workers[w := Waiting(s.stop)]);
      ss, ts := [s, s1, s1.(workers := s1.workers[w := Executing])], [Enter(w), Tick(w)];
      assert s1.workers[w := Executing] == s.workers[w := Executing];
    case Waiting(channel) =>
      ss, ts := [s, s.(workers := s.workers[w := Executing])], [Tick(w)];
  }

  /** A worker leaves from its select, exactly when the channel it waits on is closed, and nothing else changes. */
  lemma LeavesThroughClosed(s: World, w: nat, s': World)
    ensures Next(s, Stop(w), s') <==>
      && w in s.workers && (exists c :: c in s.closed && s.workers[w] == Waiting(c))
      && s' == World(s.running, s.stop, s.made, s.closed, s.workers - {w}, s.abandoned, s.panicked)
  {
    if w in s.workers && s.workers[w].Waiting? {
      var c := s.workers[w].channel;
      assert s.workers[w] == Waiting(c);
    }
  }

  /** No worker executes again before a tick: there is one between an execution that succeeds and the next one. */
  lemma {:induction false} NoneWithoutTick(ss: seq<World>, ts: seq<Step>, i: nat, k: nat, w: nat)
    requires |ss| == |ts| + 1 && forall q | 0 <= q < |ts| :: Next(ss[q], ts[q], ss[q + 1])
    requires i < k < |ss| && ts[i] == Succeed(w)
    requires forall q | i < q < k :: ts[q] != Tick(w) && !(ts[q].Start? && ts[q].w == w)
    ensures w in ss[k].workers ==> ss[k].workers[w].Selecting? || ss[k].workers[w].Waiting?
    decreases k
  {
    assert Next(ss[k - 1], ts[k - 1], ss[k]);
    if k > i + 1 {
      NoneWithoutTick(ss, ts, i, k - 1, w);
    }
  }

  // ---- What the protocol does not give ----

  lemma RunOne(ss: seq<World>, ts: seq<Step>, t: Step, s: World) returns (ss': seq<World>, ts': seq<Step>)
    requires IsRun(ss, ts) && Next(ss[|ss| - 1], t, s)
    ensures IsRun(ss', ts') && ss'[|ss'| - 1] == s
  {
    ss', ts' := ss + [s], ts + [t];
  }

  /** A worker that executes while the task is closed and started again lives on with the new channel: the second
      start of this run overlaps, see OneWorkerExactly. */
  lemma WorkerSurvivesRestart() returns (ss: seq<World>, ts: seq<Step>)
    ensures IsRun(ss, ts)
    ensures var s := ss[|ss| - 1];
            s.running && s.workers == map[0 := Waiting(1), 1 := Waiting(1)] && s.stop == 1 && s.abandoned == {}
  {
    var s := INITIAL;
    ss, ts := [s], [];
    ss, ts := RunOne(ss, ts, Start(0, true), World(true, 0, 1, {}, map[0 := Ready(true)], {}, false));
    ss, ts := RunOne(ss, ts, Begin(0), World(true, 0, 1, {}, map[0 := Executing], {}, false));
    ss, ts := RunOne(ss, ts, Close, World(false, 0, 1, {0}, map[0 := Executing], {}, false));
    ss, ts := RunOne(ss, ts, Start(1, false),
                     World(true, 1, 2, {0}, map[0 := Executing, 1 := Ready(false)], {}, false));
    ss, ts := RunOne(ss, ts, Begin(1), World(true, 1, 2, {0}, map[0 := Executing, 1 := Selecting], {}, false));
    ss, ts := RunOne(ss, ts, Enter(1), World(true, 1, 2, {0}, map[0 := Executing, 1 := Waiting(1)], {}, false));
    ss, ts := RunOne(ss, ts, Succeed(0), World(true, 1, 2, {0}, map[0 := Selecting, 1 := Waiting(1)], {}, false));
    ss, ts := RunOne(ss, ts, Enter(0), World(true, 1, 2, {0}, map[0 := Waiting(1), 1 := Waiting(1)], {}, false));
  }

  lemma {:induction false} AbandonedStays(ss: seq<World>, ts: seq<Step>, c: nat, k: nat, k': nat)
    requires IsRun(ss, ts) && k <= k' < |ss| && c in ss[k].abandoned
    ensures c in ss[k'].abandoned && c !in ss[k'].closed
    decreases k'
  {
    RunKeepsInv(ss, ts, k');
    if k < k' {
      AbandonedStays(ss, ts, c, k, k' - 1);
      assert Next(ss[k' - 1], ts[k' - 1], ss[k']);
    }
  }

  /** When such a worker fails it clears `running` for its successor: the successor's channel is never
      closed in any continuation, by AbandonedStays. */
  lemma FailureStrandsSuccessor() returns (ss: seq<World>, ts: seq<Step>)
    ensures IsRun(ss, ts)
    ensures var s := ss[|ss| - 1];
            !s.running && s.workers == map[1 := Waiting(1)] && s.stop == 1 && s.abandoned == {1} && Closed(s) == s
  {
    var s := INITIAL;
    ss, ts := [s], [];
    ss, ts := RunOne(ss, ts, Start(0, true), World(true, 0, 1, {}, map[0 := Ready(true)], {}, false));
    ss, ts := RunOne(ss, ts, Begin(0), World(true, 0, 1, {}, map[0 := Executing], {}, false));
    ss, ts := RunOne(ss, ts, Close, World(false, 0, 1, {0}, map[0 := Executing], {}, false));
    ss, ts := RunOne(ss, ts, Start(1, false),
                     World(true, 1, 2, {0}, map[0 := Executing, 1 := Ready(false)], {}, false));
    ss, ts := RunOne(ss, ts, Begin(1), World(true, 1, 2, {0}, map[0 := Executing, 1 := Selecting], {}, false));
    ss, ts := RunOne(ss, ts, Enter(1), World(true, 1, 2, {0}, map[0 := Executing, 1 := Waiting(1)], {}, false));
    ss, ts := RunOne(ss, ts, Fail(0), World(false, 1, 2, {0}, map[1 := Waiting(1)], {1}, false));
  }
}
