/** Connections and the reporter interleaved on shared counters.

    A stream read or write (common/counter/conn.go) first moves bytes and then, as a step of its own,
    either adds them to a counter or overwrites the counter with them.  The reporter
    (core/sing/user.go) loads both counters, zeroes them one after the other and appends a row. */
module TrafficRaces {

  datatype Direction = Up | Down

  /** One counter with its history: bytes moved, bytes written to the counter, bytes written before it
      was last zeroed, bytes reported from it, bytes taken from it and dropped for want of a uid. */
  datatype Side = Side(value: nat, moved: nat, written: nat, zeroedAt: nat, reported: nat, dropped: nat)

  const NEW_SIDE: Side := Side(0, 0, 0, 0, 0, 0)

  datatype Cell = Cell(owner: string, up: Side, down: Side) {
    function On(d: Direction): Side {
      if d.Up? then up else down
    }

    function With(d: Direction, s: Side): Cell {
      if d.Up? then this.(up := s) else this.(down := s)
    }
  }

  /** Bytes moved and not yet written to their counter. */
  datatype Pending = Pending(cell: nat, direction: Direction, n: nat, overwrite: bool)

  datatype Reporter =
    | Idle
    | LoadedUp(cell: nat, up: nat)
    | Loaded(cell: nat, up: nat, down: nat)
    | ZeroedUp(cell: nat, up: nat, down: nat)
    | Zeroed(cell: nat, up: nat, down: nat)

  datatype World = World(cells: seq<Cell>, pending: seq<Pending>, reporter: Reporter)

  datatype Step =
    | NewCell(owner: string)
    | Move(p: Pending)
    | MoveUncounted(cell: nat, direction: Direction, n: nat)  // an error after the transfer
    | Write(i: nat)
    | LoadUp(cell: nat)
    | LoadDown
    | BelowThreshold
    | ZeroUp
    | ZeroDown
    | Append
    | DropUnknown                                               // no uid for the uuid

  function Moved(s: Side, n: nat): Side {
    s.(moved := s.moved + n)
  }

  function Written(s: Side, n: nat, overwrite: bool): Side {
    s.(value := if overwrite then n else s.value + n, written := s.written + n)
  }

  function ZeroedSide(s: Side): Side {
    s.(value := 0, zeroedAt := s.written)
  }

  function Update(w: World, c: nat, d: Direction, s: Side): World
    requires c < |w.cells|
  {
    w.(cells := w.cells[c := w.cells[c].With(d, s)])
  }

  ghost predicate Next(w: World, t: Step, w': World) {
    match t
    case NewCell(owner) => w' == w.(cells := w.cells + [Cell(owner, NEW_SIDE, NEW_SIDE)])
    case Move(p) =>
      p.cell < |w.cells| &&
      w' == Update(w, p.cell, p.direction, Moved(w.cells[p.cell].On(p.direction), p.n)).(pending := w.pending + [p])
    case MoveUncounted(c, d, n) =>
      c < |w.cells| && w' == Update(w, c, d, Moved(w.cells[c].On(d), n))
    case Write(i) =>
      i < |w.pending| && w.pending[i].cell < |w.cells| &&
      var p := w.pending[i];
      w' == Update(w, p.cell, p.direction, Written(w.cells[p.cell].On(p.direction), p.n, p.overwrite))
        .(pending := w.pending[..i] + w.pending[i + 1..])
    case LoadUp(c) =>
      w.reporter.Idle? && c < |w.cells| && w' == w.(reporter := LoadedUp(c, w.cells[c].up.value))
    case LoadDown =>
      w.reporter.LoadedUp? && w.reporter.cell < |w.cells| &&
      w' == w.(reporter := Loaded(w.reporter.cell, w.reporter.up, w.cells[w.reporter.cell].down.value))
    case BelowThreshold => w.reporter.Loaded? && w' == w.(reporter := Idle)
    case ZeroUp =>
      w.reporter.Loaded? && w.reporter.cell < |w.cells| &&
      var r := w.reporter;
      w' == Update(w, r.cell, Up, ZeroedSide(w.cells[r.cell].up)).(reporter := ZeroedUp(r.cell, r.up, r.down))
    case ZeroDown =>
      w.reporter.ZeroedUp? && w.reporter.cell < |w.cells| &&
      var r := w.reporter;
      w' == Update(w, r.cell, Down, ZeroedSide(w.cells[r.cell].down)).(reporter := Zeroed(r.cell, r.up, r.down))
    case Append =>
      w.reporter.Zeroed? && w.reporter.cell < |w.cells| &&
      var r := w.reporter;
      var c := w.cells[r.cell];
      w' == w.(cells := w.cells[r.cell := c.(up := c.up.(reported := c.up.reported + r.up),
                                             down := c.down.(reported := c.down.reported + r.down))],
               reporter := Idle)
    case DropUnknown =>
      w.reporter.Zeroed? && w.reporter.cell < |w.cells| &&
      var r := w.reporter;
      var c := w.cells[r.cell];
      w' == w.(cells := w.cells[r.cell := c.(up := c.up.(dropped := c.up.dropped + r.up),
                                             down := c.down.(dropped := c.down.dropped + r.down))],
               reporter := Idle)
  }

  ghost predicate IsRun(ws: seq<World>, ts: seq<Step>) {
    && |ws| == |ts| + 1 && ws[0] == World([], [], Idle)
    && forall i | 0 <= i < |ts| :: Next(ws[i], ts[i], ws[i + 1])
  }

  // ---- The invariant ----

  /** What the reporter holds of one counter: nothing, a value it has loaded, or a value it has loaded
      from a counter that it has zeroed since. */
  datatype Hand = Empty | Holds(n: nat) | Owns(n: nat)

  function HandOn(r: Reporter, c: nat, d: Direction): Hand {
    match r
    case Idle => Empty
    case LoadedUp(cell, up) => if cell == c && d.Up? then Holds(up) else Empty
    case Loaded(cell, up, down) => if cell != c then Empty else if d.Up? then Holds(up) else Holds(down)
    case ZeroedUp(cell, up, down) => if cell != c then Empty else if d.Up? then Owns(up) else Holds(down)
    case Zeroed(cell, up, down) => if cell != c then Empty else if d.Up? then Owns(up) else Owns(down)
  }

  ghost predicate SideOk(s: Side, h: Hand) {
    && s.value + s.zeroedAt <= s.written
    && match h
       case Empty => s.reported <= s.zeroedAt
       case Holds(n) => s.reported <= s.zeroedAt && s.zeroedAt + n <= s.written
       case Owns(n) => s.reported + n <= s.zeroedAt
  }

  function InFlight(pending: seq<Pending>, c: nat, d: Direction): nat {
    if pending == [] then 0
    else InFlight(pending[1..], c, d) + if pending[0].cell == c && pending[0].direction == d then pending[0].n else 0
  }

  ghost predicate Inv(w: World) {
    && (forall c, d | 0 <= c < |w.cells| ::
          SideOk(w.cells[c].On(d), HandOn(w.reporter, c, d)) &&
          w.cells[c].On(d).written + InFlight(w.pending, c, d) <= w.cells[c].On(d).moved)
    && (forall i | 0 <= i < |w.pending| :: w.pending[i].cell < |w.cells|)
    && (!w.reporter.Idle? ==> w.reporter.cell < |w.cells|)
  }

  lemma {:induction false} InFlightSplit(a: seq<Pending>, b: seq<Pending>, c: nat, d: Direction)
    ensures InFlight(a + b, c, d) == InFlight(a, c, d) + InFlight(b, c, d)
  {
    if a == [] {
      assert a + b == b;
    } else {
      assert (a + b)[1..] == a[1..] + b;
      InFlightSplit(a[1..], b, c, d);
    }
  }

  lemma InFlightOne(p: Pending, c: nat, d: Direction)
    ensures InFlight([p], c, d) == if p.cell == c && p.direction == d then p.n else 0
  {
    assert [p][1..] == [];
  }

  lemma InFlightRemove(pending: seq<Pending>, i: nat, c: nat, d: Direction)
    requires i < |pending|
    ensures var p := pending[i];
            InFlight(pending, c, d) == InFlight(pending[..i] + pending[i + 1..], c, d) +
              if p.cell == c && p.direction == d then p.n else 0
  {
    hide InFlight;
    InFlightSplit(pending[..i], pending[i + 1..], c, d);
    InFlightSplit(pending[..i] + [pending[i]], pending[i + 1..], c, d);
    InFlightSplit(pending[..i], [pending[i]], c, d);
    InFlightOne(pending[i], c, d);
    assert pending[..i] + [pending[i]] + pending[i + 1..] == pending;
  }

  lemma {:induction false} NothingInFlight(pending: seq<Pending>, c: nat, d: Direction)
    requires forall i | 0 <= i < |pending| :: pending[i].cell < c
    ensures InFlight(pending, c, d) == 0
  {
    if pending != [] { NothingInFlight(pending[1..], c, d); }
  }

  lemma StepKeepsInv(w: World, t: Step, w': World)
    requires Next(w, t, w') && Inv(w)
    ensures Inv(w')
  {
    forall c, d | 0 <= c < |w'.cells|
      ensures SideOk(w'.cells[c].On(d), HandOn(w'.reporter, c, d))
      ensures w'.cells[c].On(d).written + InFlight(w'.pending, c, d) <= w'.cells[c].On(d).moved
    {
      StepKeepsSide(w, t, w', c, d);
      StepKeepsMoved(w, t, w', c, d);
    }
  }

  lemma StepKeepsSide(w: World, t: Step, w': World, c: nat, d: Direction)
    requires Next(w, t, w') && Inv(w) && c < |w'.cells|
    ensures SideOk(w'.cells[c].On(d), HandOn(w'.reporter, c, d))
  {
    hide InFlight;
    if c < |w.cells| {
      assert SideOk(w.cells[c].On(d), HandOn(w.reporter, c, d));
      if t.NewCell? || t.Move? || t.MoveUncounted? || t.Write? {
        ConnectionKeepsSide(w, t, w', c, d);
      } else {
        ReporterKeepsSide(w, t, w', c, d);
      }
    }
  }

  lemma ConnectionKeepsSide(w: World, t: Step, w': World, c: nat, d: Direction)
    requires Next(w, t, w') && c < |w.cells| && SideOk(w.cells[c].On(d), HandOn(w.reporter, c, d))
    requires t.NewCell? || t.Move? || t.MoveUncounted? || t.Write?
    ensures c < |w'.cells| && SideOk(w'.cells[c].On(d), HandOn(w'.reporter, c, d))
  {
    hide HandOn;
  }

  lemma ReporterKeepsSide(w: World, t: Step, w': World, c: nat, d: Direction)
    requires Next(w, t, w') && c < |w.cells| && SideOk(w.cells[c].On(d), HandOn(w.reporter, c, d))
    requires !(t.NewCell? || t.Move? || t.MoveUncounted? || t.Write?)
    ensures c < |w'.cells| && SideOk(w'.cells[c].On(d), HandOn(w'.reporter, c, d))
  {
    hide Moved, Written;
  }

  lemma StepKeepsMoved(w: World, t: Step, w': World, c: nat, d: Direction)
    requires Next(w, t, w') && Inv(w) && c < |w'.cells|
    ensures w'.cells[c].On(d).written + InFlight(w'.pending, c, d) <= w'.cells[c].On(d).moved
  {
    hide SideOk, HandOn, InFlight;
    if t.NewCell? {
      if c == |w.cells| { NothingInFlight(w.pending, c, d); }
    } else if t.Move? || t.MoveUncounted? || t.Write? {
      ConnectionKeepsMoved(w, t, w', c, d);
    } else {
      ReporterKeepsMoved(w, t, w', c, d);
    }
  }

  lemma ConnectionKeepsMoved(w: World, t: Step, w': World, c: nat, d: Direction)
    requires Next(w, t, w') && c < |w.cells| && (t.Move? || t.MoveUncounted? || t.Write?)
    requires w.cells[c].On(d).written + InFlight(w.pending, c, d) <= w.cells[c].On(d).moved
    ensures c < |w'.cells| && w'.cells[c].On(d).written + InFlight(w'.pending, c, d) <= w'.cells[c].On(d).moved
  {
    hide InFlight;
    if t.Move? {
      InFlightSplit(w.pending, [t.p], c, d);
      InFlightOne(t.p, c, d);
    } else if t.Write? {
      InFlightRemove(w.pending, t.i, c, d);
    }
  }

  lemma ReporterKeepsMoved(w: World, t: Step, w': World, c: nat, d: Direction)
    requires Next(w, t, w') && c < |w.cells| && !(t.NewCell? || t.Move? || t.MoveUncounted? || t.Write?)
    ensures c < |w'.cells| && w'.pending == w.pending
    ensures w'.cells[c].On(d).written == w.cells[c].On(d).written && w'.cells[c].On(d).moved == w.cells[c].On(d).moved
  {
    hide Moved, Written;
  }

  lemma {:induction false} RunKeepsInv(ws: seq<World>, ts: seq<Step>, k: nat)
    requires IsRun(ws, ts) && k < |ws|
    ensures Inv(ws[k])
  {
    if k > 0 {
      RunKeepsInv(ws, ts, k - 1);
      StepKeepsInv(ws[k - 1], ts[k - 1], ws[k]);
    }
  }

  // ---- Per user ----

  function ReportedFor(cells: seq<Cell>, owner: string): nat {
    if cells == [] then 0
    else
      ReportedFor(cells[1..], owner) +
      if cells[0].owner == owner then cells[0].up.reported + cells[0].down.reported else 0
  }

  function MovedFor(cells: seq<Cell>, owner: string): nat {
    if cells == [] then 0
    else MovedFor(cells[1..], owner) + if cells[0].owner == owner then cells[0].up.moved + cells[0].down.moved else 0
  }

  ghost predicate NoneOver(cells: seq<Cell>) {
    forall c, d | 0 <= c < |cells| :: cells[c].On(d).reported <= cells[c].On(d).moved
  }

  lemma {:induction false} SumNoneOver(cells: seq<Cell>, owner: string)
    requires NoneOver(cells)
    ensures ReportedFor(cells, owner) <= MovedFor(cells, owner)
  {
    if cells != [] {
      forall c, d | 0 <= c < |cells[1..]| ensures cells[1..][c].On(d).reported <= cells[1..][c].On(d).moved {
        assert cells[c + 1].On(d).reported <= cells[c + 1].On(d).moved;
      }
      SumNoneOver(cells[1..], owner);
      assert cells[0].On(Up).reported <= cells[0].On(Up).moved && cells[0].On(Down).reported <= cells[0].On(Down).moved;
    }
  }

  /** The main result: at every step of every interleaving of any number of connections with one
      reporter, no more bytes have been reported for a user than were moved for that user. */
  lemma NeverOverReported(ws: seq<World>, ts: seq<Step>, k: nat, owner: string)
    requires IsRun(ws, ts) && k < |ws|
    ensures ReportedFor(ws[k].cells, owner) <= MovedFor(ws[k].cells, owner)
  {
    RunKeepsInv(ws, ts, k);
    var w := ws[k];
    forall c, d | 0 <= c < |w.cells| ensures w.cells[c].On(d).reported <= w.cells[c].On(d).moved {
      assert SideOk(w.cells[c].On(d), HandOn(w.reporter, c, d));
    }
    SumNoneOver(w.cells, owner);
  }

  // ---- What is lost ----

  function Owned(h: Hand): nat {
    if h.Owns? then h.n else 0
  }

  /** Every byte written to the counter has been reported or dropped, is in the counter, or is in the
      hands of the reporter that zeroed it. */
  predicate SideAccounted(s: Side, h: Hand) {
    s.written == s.reported + s.dropped + s.value + Owned(h)
  }

  ghost predicate Accounted(w: World) {
    forall c, d | 0 <= c < |w.cells| :: SideAccounted(w.cells[c].On(d), HandOn(w.reporter, c, d))
  }

  /** A plain read or write overwrites a counter that is not zero, or the reporter zeroes a counter that
      has changed since it was loaded. */
  predicate LosesOn(w: World, t: Step, c: nat, d: Direction)
    requires c < |w.cells|
  {
    match t
    case Write(i) =>
      && i < |w.pending| && w.pending[i].cell == c && w.pending[i].direction == d
      && w.pending[i].overwrite && w.cells[c].On(d).value != 0
    case ZeroUp => d.Up? && w.reporter.Loaded? && w.reporter.cell == c && w.cells[c].up.value != w.reporter.up
    case ZeroDown => d.Down? && w.reporter.ZeroedUp? && w.reporter.cell == c && w.cells[c].down.value != w.reporter.down
    case _ => false
  }

  ghost predicate Loses(w: World, t: Step) {
    exists c, d | 0 <= c < |w.cells| :: LosesOn(w, t, c, d)
  }

  lemma SideAccountsExactly(w: World, t: Step, w': World, c: nat, d: Direction)
    requires Next(w, t, w') && c < |w.cells| && SideAccounted(w.cells[c].On(d), HandOn(w.reporter, c, d))
    ensures c < |w'.cells|
    ensures SideAccounted(w'.cells[c].On(d), HandOn(w'.reporter, c, d)) <==> !LosesOn(w, t, c, d)
  {
    if t.NewCell? || t.Move? || t.MoveUncounted? || t.Write? {
      ConnectionAccountsExactly(w, t, w', c, d);
    } else {
      ReporterAccountsExactly(w, t, w', c, d);
    }
  }

  lemma ConnectionAccountsExactly(w: World, t: Step, w': World, c: nat, d: Direction)
    requires Next(w, t, w') && c < |w.cells| && SideAccounted(w.cells[c].On(d), HandOn(w.reporter, c, d))
    requires t.NewCell? || t.Move? || t.MoveUncounted? || t.Write?
    ensures c < |w'.cells|
    ensures SideAccounted(w'.cells[c].On(d), HandOn(w'.reporter, c, d)) <==> !LosesOn(w, t, c, d)
  {
    hide HandOn;
  }

  lemma ReporterAccountsExactly(w: World, t: Step, w': World, c: nat, d: Direction)
    requires Next(w, t, w') && c < |w.cells| && SideAccounted(w.cells[c].On(d), HandOn(w.reporter, c, d))
    requires !(t.NewCell? || t.Move? || t.MoveUncounted? || t.Write?)
    ensures c < |w'.cells|
    ensures SideAccounted(w'.cells[c].On(d), HandOn(w'.reporter, c, d)) <==> !LosesOn(w, t, c, d)
  {
    hide Moved, Written;
  }

  lemma StepAccountsExactly(w: World, t: Step, w': World)
    requires Next(w, t, w') && Inv(w) && Accounted(w)
    ensures Accounted(w') <==> !Loses(w, t)
  {
    forall c, d | 0 <= c < |w'.cells| && c < |w.cells|
      ensures SideAccounted(w'.cells[c].On(d), HandOn(w'.reporter, c, d)) <==> !LosesOn(w, t, c, d)
    {
      assert SideAccounted(w.cells[c].On(d), HandOn(w.reporter, c, d));
      SideAccountsExactly(w, t, w', c, d);
    }
    CellsStay(w, t, w');
    hide Next, Inv, HandOn, SideAccounted, LosesOn;
    if Loses(w, t) {
      var c, d :| 0 <= c < |w.cells| && LosesOn(w, t, c, d);
      assert !SideAccounted(w'.cells[c].On(d), HandOn(w'.reporter, c, d));
    }
  }

  /** A step takes no cell away, and nothing is missing from one it adds. */
  lemma CellsStay(w: World, t: Step, w': World)
    requires Next(w, t, w') && Inv(w)
    ensures |w.cells| <= |w'.cells|
    ensures forall c, d | |w.cells| <= c < |w'.cells| :: SideAccounted(w'.cells[c].On(d), HandOn(w'.reporter, c, d))
  {
  }

  lemma {:induction false} AccountedUpTo(ws: seq<World>, ts: seq<Step>, k: nat)
    requires IsRun(ws, ts) && k < |ws| && forall i | 0 <= i < k :: !Loses(ws[i], ts[i])
    ensures Accounted(ws[k])
  {
    hide Next, Accounted, Loses, Inv;
    if k == 0 {
      NothingAtFirst();
    } else {
      AccountedUpTo(ws, ts, k - 1);
      RunKeepsInv(ws, ts, k - 1);
      StepAccountsExactly(ws[k - 1], ts[k - 1], ws[k]);
    }
  }

  lemma NothingAtFirst()
    ensures Accounted(World([], [], Idle))
  {
  }

  /** Conservation over the interleavings: at every step of a run every byte written is reported,
      dropped, in its counter or in the reporter's hands, if and only if the run never overwrites a
      counter that is not zero and never zeroes one that has changed since it was loaded. */
  lemma AccountedExactly(ws: seq<World>, ts: seq<Step>)
    requires IsRun(ws, ts)
    ensures (forall k | 0 <= k < |ws| :: Accounted(ws[k])) <==> (forall i | 0 <= i < |ts| :: !Loses(ws[i], ts[i]))
  {
    hide Next, Accounted, Loses, Inv;
    if forall k | 0 <= k < |ws| :: Accounted(ws[k]) {
      forall i | 0 <= i < |ts| ensures !Loses(ws[i], ts[i]) {
        assert Accounted(ws[i + 1]);
        RunKeepsInv(ws, ts, i);
        StepAccountsExactly(ws[i], ts[i], ws[i + 1]);
      }
    }
    if forall i | 0 <= i < |ts| :: !Loses(ws[i], ts[i]) {
      forall k | 0 <= k < |ws| ensures Accounted(ws[k]) {
        AccountedUpTo(ws, ts, k);
      }
    }
  }

  lemma RunOne(ws: seq<World>, ts: seq<Step>, t: Step, w: World) returns (ws': seq<World>, ts': seq<Step>)
    requires IsRun(ws, ts) && Next(ws[|ws| - 1], t, w)
    ensures IsRun(ws', ts') && ws'[|ws'| - 1] == w
  {
    ws', ts' := ws + [w], ts + [t];
  }

  function OneCell(up: Side, pending: seq<Pending>, reporter: Reporter): World {
    World([Cell("u", up, NEW_SIDE)], pending, reporter)
  }

  lemma OneCellStart() returns (ws: seq<World>, ts: seq<Step>)
    ensures IsRun(ws, ts) && ws[|ws| - 1] == OneCell(NEW_SIDE, [], Idle)
  {
    ws, ts := [World([], [], Idle)], [];
    assert Next(World([], [], Idle), NewCell("u"), OneCell(NEW_SIDE, [], Idle));
    ws, ts := RunOne(ws, ts, NewCell("u"), OneCell(NEW_SIDE, [], Idle));
  }

  lemma OneMove(up: Side, p: Pending)
    requires p.cell == 0 && p.direction == Up
    ensures Next(OneCell(up, [], Idle), Move(p), OneCell(Moved(up, p.n), [p], Idle))
  {
  }

  lemma OneWrite(up: Side, p: Pending, r: Reporter)
    requires p.cell == 0 && p.direction == Up
    ensures Next(OneCell(up, [p], r), Write(0), OneCell(Written(up, p.n, p.overwrite), [], r))
  {
    assert [p][..0] + [p][1..] == [];
  }

  /** A transfer of `p.n` bytes, from the move to the written counter. */
  lemma OneTransfer(ws: seq<World>, ts: seq<Step>, up: Side, p: Pending) returns (ws': seq<World>, ts': seq<Step>)
    requires IsRun(ws, ts) && ws[|ws| - 1] == OneCell(up, [], Idle) && p.cell == 0 && p.direction == Up
    ensures IsRun(ws', ts') && ws'[|ws'| - 1] == OneCell(Written(Moved(up, p.n), p.n, p.overwrite), [], Idle)
  {
    hide Next, IsRun;
    OneMove(up, p);
    OneWrite(Moved(up, p.n), p, Idle);
    ws', ts' := RunOne(ws, ts, Move(p), OneCell(Moved(up, p.n), [p], Idle));
    ws', ts' := RunOne(ws', ts', Write(0), OneCell(Written(Moved(up, p.n), p.n, p.overwrite), [], Idle));
  }

  lemma TransferWrites(s: Side, n: nat, overwrite: bool)
    ensures Written(Moved(s, n), n, overwrite) ==
      s.(value := if overwrite then n else s.value + n, moved := s.moved + n, written := s.written + n)
  {
  }

  /** Two plain reads between two reports: six bytes were written, one is left in the counter. */
  lemma OverwritingLoses() returns (ws: seq<World>, ts: seq<Step>)
    ensures IsRun(ws, ts) && ws[|ws| - 1] == OneCell(Side(1, 6, 6, 0, 0, 0), [], Idle) && !Accounted(ws[|ws| - 1])
  {
    hide *;
    TransferWrites(NEW_SIDE, 5, true);
    TransferWrites(Side(5, 5, 5, 0, 0, 0), 1, true);
    NewSide();
    Unaccounted(Side(1, 6, 6, 0, 0, 0));
    ws, ts := OneCellStart();
    ws, ts := OneTransfer(ws, ts, NEW_SIDE, Pending(0, Up, 5, true));
    ws, ts := OneTransfer(ws, ts, Side(5, 5, 5, 0, 0, 0), Pending(0, Up, 1, true));
  }

  lemma NewSide()
    ensures NEW_SIDE == Side(0, 0, 0, 0, 0, 0)
  {
  }

  lemma Unaccounted(up: Side)
    ensures !SideAccounted(up, Empty) ==> !Accounted(OneCell(up, [], Idle))
    ensures SideAccounted(up, Empty) <==> up.written == up.reported + up.dropped + up.value
  {
    var w := OneCell(up, [], Idle);
    assert SideAccounted(w.cells[0].On(Up), HandOn(Idle, 0, Up)) <==> SideAccounted(up, Empty);
  }

  /** The steps of a report during which `p` is added between the load and the store. */
  lemma OneReport(up: Side, p: Pending)
    requires p == Pending(0, Up, 3, false) && up == Side(5, 8, 5, 0, 0, 0)
    ensures var a, b := up, Side(8, 8, 8, 0, 0, 0);
            && Next(OneCell(a, [p], Idle), LoadUp(0), OneCell(a, [p], LoadedUp(0, 5)))
            && Next(OneCell(a, [p], LoadedUp(0, 5)), LoadDown, OneCell(a, [p], Loaded(0, 5, 0)))
            && Next(OneCell(b, [], Loaded(0, 5, 0)), ZeroUp, OneCell(Side(0, 8, 8, 8, 0, 0), [], ZeroedUp(0, 5, 0)))
  {
  }

  lemma OneReportEnds(up: Side, done: Side)
    requires up == Side(0, 8, 8, 8, 0, 0) && done == Side(0, 8, 8, 8, 5, 0)
    ensures Next(OneCell(up, [], ZeroedUp(0, 5, 0)), ZeroDown, OneCell(up, [], Zeroed(0, 5, 0)))
    ensures Next(OneCell(up, [], Zeroed(0, 5, 0)), Append, OneCell(done, [], Idle))
  {
  }

  /** Three bytes added while the reporter is between its load and its store: eight were written, five
      are reported, none is left, and nothing was overwritten by a read or a write. */
  lemma AddedWhileReportingLost() returns (ws: seq<World>, ts: seq<Step>)
    ensures IsRun(ws, ts) && ws[|ws| - 1] == OneCell(Side(0, 8, 8, 8, 5, 0), [], Idle) && !Accounted(ws[|ws| - 1])
  {
    hide *;
    var p, up := Pending(0, Up, 3, false), Side(5, 5, 5, 0, 0, 0);
    TransferWrites(NEW_SIDE, 5, false);
    TransferSteps(up, p);
    NewSide();
    OneMove(up, p);
    OneWrite(Side(5, 8, 5, 0, 0, 0), p, Loaded(0, 5, 0));
    OneReport(Side(5, 8, 5, 0, 0, 0), p);
    OneReportEnds(Side(0, 8, 8, 8, 0, 0), Side(0, 8, 8, 8, 5, 0));
    Unaccounted(Side(0, 8, 8, 8, 5, 0));
    ws, ts := OneCellStart();
    ws, ts := OneTransfer(ws, ts, NEW_SIDE, Pending(0, Up, 5, false));
    ws, ts := RunOne(ws, ts, Move(p), OneCell(Side(5, 8, 5, 0, 0, 0), [p], Idle));
    ws, ts := RunOne(ws, ts, LoadUp(0), OneCell(Side(5, 8, 5, 0, 0, 0), [p], LoadedUp(0, 5)));
    ws, ts := RunOne(ws, ts, LoadDown, OneCell(Side(5, 8, 5, 0, 0, 0), [p], Loaded(0, 5, 0)));
    ws, ts := RunOne(ws, ts, Write(0), OneCell(Side(8, 8, 8, 0, 0, 0), [], Loaded(0, 5, 0)));
    ws, ts := RunOne(ws, ts, ZeroUp, OneCell(Side(0, 8, 8, 8, 0, 0), [], ZeroedUp(0, 5, 0)));
    ws, ts := RunOne(ws, ts, ZeroDown, OneCell(Side(0, 8, 8, 8, 0, 0), [], Zeroed(0, 5, 0)));
    ws, ts := RunOne(ws, ts, Append, OneCell(Side(0, 8, 8, 8, 5, 0), [], Idle));
  }

  lemma TransferSteps(up: Side, p: Pending)
    requires p == Pending(0, Up, 3, false) && up == Side(5, 5, 5, 0, 0, 0)
    ensures Moved(up, p.n) == Side(5, 8, 5, 0, 0, 0)
    ensures Written(Side(5, 8, 5, 0, 0, 0), p.n, false) == Side(8, 8, 8, 0, 0, 0)
  {
  }

  // ---- Without interference ----

  /** What the reporter makes of a counter when nothing comes between. */
  function SideReported(s: Side, known: bool): Side {
    if known then Side(0, s.moved, s.written, s.written, s.reported + s.value, s.dropped)
    else Side(0, s.moved, s.written, s.written, s.reported, s.dropped + s.value)
  }

  /** Undisturbed, the reporter reports both values of an entry, or drops both for want of a uid, and leaves two
      zeros; nothing else changes. */
  lemma ReportsUndisturbed(w: World, c: nat, known: bool) returns (ws: seq<World>, ts: seq<Step>)
    requires w.reporter.Idle? && c < |w.cells|
    ensures ts == [LoadUp(c), LoadDown, ZeroUp, ZeroDown, if known then Append else DropUnknown]
    ensures |ws| == 6 && ws[0] == w && forall i | 0 <= i < 5 :: Next(ws[i], ts[i], ws[i + 1])
    ensures var x := w.cells[c];
            var cell := Cell(x.owner, SideReported(x.up, known), SideReported(x.down, known));
            ws[5] == World(w.cells[c := cell], w.pending, Idle)
  {
    var x := w.cells[c];
    var u, d := Side(0, x.up.moved, x.up.written, x.up.written, x.up.reported, x.up.dropped),
                Side(0, x.down.moved, x.down.written, x.down.written, x.down.reported, x.down.dropped);
    var w1 := World(w.cells, w.pending, LoadedUp(c, x.up.value));
    var w2 := World(w.cells, w.pending, Loaded(c, x.up.value, x.down.value));
    var w3 := World(w.cells[c := Cell(x.owner, u, x.down)], w.pending, ZeroedUp(c, x.up.value, x.down.value));
    var w4 := World(w.cells[c := Cell(x.owner, u, d)], w.pending, Zeroed(c, x.up.value, x.down.value));
    var cell := Cell(x.owner, SideReported(x.up, known), SideReported(x.down, known));
    var w5 := World(w.cells[c := cell], w.pending, Idle);
    StepsUndisturbed(w, w1, w2, w3, w4, w5, c, u, d, known);
    ws := [w, w1, w2, w3, w4, w5];
    ts := [LoadUp(c), LoadDown, ZeroUp, ZeroDown, if known then Append else DropUnknown];
    hide Next;
  }

  lemma StepsUndisturbed(w: World, w1: World, w2: World, w3: World, w4: World, w5: World, c: nat, u: Side, d: Side,
      known: bool)
    requires w.reporter.Idle? && c < |w.cells|
    requires var x := w.cells[c];
             && u == Side(0, x.up.moved, x.up.written, x.up.written, x.up.reported, x.up.dropped)
             && d == Side(0, x.down.moved, x.down.written, x.down.written, x.down.reported, x.down.dropped)
             && w1 == World(w.cells, w.pending, LoadedUp(c, x.up.value))
             && w2 == World(w.cells, w.pending, Loaded(c, x.up.value, x.down.value))
             && w3 == World(w.cells[c := Cell(x.owner, u, x.down)], w.pending, ZeroedUp(c, x.up.value, x.down.value))
             && w4 == World(w.cells[c := Cell(x.owner, u, d)], w.pending, Zeroed(c, x.up.value, x.down.value))
             && w5 == World(w.cells[c := Cell(x.owner, SideReported(x.up, known), SideReported(x.down, known))],
                            w.pending, Idle)
    ensures Next(w, LoadUp(c), w1) && Next(w1, LoadDown, w2) && Next(w2, ZeroUp, w3) && Next(w3, ZeroDown, w4)
    ensures Next(w4, if known then Append else DropUnknown, w5)
  {
  }

  /** Undisturbed, bytes moved over a connection are counted, or take the place of what was counted. */
  lemma CountsUndisturbed(w: World, p: Pending) returns (w': World, w'': World)
    requires p.cell < |w.cells|
    ensures Next(w, Move(p), w') && Next(w', Write(|w.pending|), w'')
    ensures var s := w.cells[p.cell].On(p.direction);
            var r := Side(if p.overwrite then p.n else s.value + p.n, s.moved + p.n, s.written + p.n, s.zeroedAt,
                          s.reported, s.dropped);
            w'' == World(w.cells[p.cell := w.cells[p.cell].With(p.direction, r)], w.pending, w.reporter)
  {
    w' := Update(w, p.cell, p.direction, Moved(w.cells[p.cell].On(p.direction), p.n)).(pending := w.pending + [p]);
    var n := |w.pending|;
    assert (w.pending + [p])[..n] + (w.pending + [p])[n + 1..] == w.pending;
    w'' := Update(w', p.cell, p.direction, Written(w'.cells[p.cell].On(p.direction), p.n, p.overwrite))
      .(pending := w.pending);
  }
}
