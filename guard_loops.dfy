/**
 * Loops of the guard (day 6): `checkLoop` replays the walk and reports a loop
 * when the guard, after a step, stands in a state it has already stood in
 * after a step; `findAllPossibleLoopObstructions` tries an obstruction on
 * every cell of the traced path and keeps those that make the guard loop.
 */
module GuardLoops {
  import opened Wrappers
  import Seqs
  import Sorting
  import opened GuardMap

  /** A map whose lines all have the declared width, as many as the declared height. */
  predicate Rectangular(g: Grid)
  {
    g.height == |g.rows| && forall r :: 0 <= r < |g.rows| ==> |g.rows[r]| == g.width
  }

  /** All guard states inside the map. */
  ghost function States(g: Grid): set<Position>
  {
    set d, r, c | d in {Up, Right, Down, Left} && 0 <= r < g.height && 0 <= c < g.width :: Position(d, r, c)
  }

  function Visited(path: seq<Position>): set<Position>
  {
    set p | p in path
  }

  lemma InStates(g: Grid, p: Position)
    requires InBounds(g, p)
    ensures p in States(g)
  {
    assert p.direction == Up || p.direction == Right || p.direction == Down || p.direction == Left;
    assert p == Position(p.direction, p.row, p.col);
  }

  /** A step from inside a rectangular map that does not exit stays inside. */
  lemma StepInBounds(g: Grid, p: Position)
    requires Rectangular(g) && InBounds(g, p) && !IsExiting(g, p)
    ensures InBounds(g, Advance(p)) && InBounds(g, TurnRight(p)) && Placed(g, p)
  {
  }

  /** Recording a new state inside the map leaves fewer unrecorded states. */
  lemma NewState(g: Grid, next: Position, path: seq<Position>)
    requires InBounds(g, next) && next !in path
    ensures States(g) - Visited(path + [next]) < States(g) - Visited(path)
  {
    InStates(g, next);
    assert next in States(g) - Visited(path);
    assert next !in States(g) - Visited(path + [next]);
  }

  // ---------------------------------------------------------------------------
  // The loop check

  /**
   * `checkLoop` as written, from state `p` with the states recorded so far in
   * `path`; `None` when `fuel` iterations do not settle it.
   */
  function CheckFrom(g: Grid, p: Position, path: seq<Position>, fuel: nat): Option<bool>
    requires Placed(g, p)
    decreases fuel
  {
    if fuel == 0 then None
    else if IsExiting(g, p) then Some(false)
    else
      var next := Advance(p);
      AdvancePlaced(g, p);
      if Blocked(g, next) then CheckFrom(g, TurnRight(p), path, fuel - 1)
      else if next in path then Some(true)
      else CheckFrom(g, next, path + [next], fuel - 1)
  }

  /**
   * The loop check with the turns counted: after four turns in a row the
   * guard is boxed in on its cell and the check reports a loop. On a
   * rectangular map it always returns.
   */
  function LoopFrom(g: Grid, p: Position, path: seq<Position>, turns: nat): bool
    requires Rectangular(g) && InBounds(g, p) && turns <= 4
    decreases States(g) - Visited(path), 4 - turns
  {
    if IsExiting(g, p) then false
    else if turns == 4 then true
    else
      var next := Advance(p);
      StepInBounds(g, p);
      if Blocked(g, next) then LoopFrom(g, TurnRight(p), path, turns + 1)
      else if next in path then true
      else
        NewState(g, next, path);
        LoopFrom(g, next, path + [next], 0)
  }

  lemma StartInBounds(g: Grid)
    requires Rectangular(g) && InitialPosition(g).Some?
    ensures InBounds(g, InitialPosition(g).value)
  {
  }

  /** The guard starts such that no number of iterations of the walk takes it out. */
  ghost predicate NeverLeaves(g: Grid)
    requires Rectangular(g) && InitialPosition(g).Some?
  {
    StartInBounds(g);
    forall fuel: nat :: TraceFrom(g, InitialPosition(g).value, fuel).None?
  }

  /** `checkLoop`, with the turns counted; it reports a loop exactly when the guard never leaves the map. */
  method CheckLoop(g: Grid) returns (loop: bool)
    requires Rectangular(g) && InitialPosition(g).Some?
    ensures StartInBoundsFact(g) && loop == LoopFrom(g, InitialPosition(g).value, [InitialPosition(g).value], 0)
    ensures loop <==> NeverLeaves(g)
  {
    StartInBounds(g);
    var start := GetInitialPosition(g);
    var initial := start.value;
    var guard := initial;
    var path := [initial];
    var turns := 0;
    while true
      invariant InBounds(g, guard) && turns <= 4
      invariant LoopFrom(g, guard, path, turns) == LoopFrom(g, initial, [initial], 0)
      decreases States(g) - Visited(path), 4 - turns
    {
      if IsExiting(g, guard) {
        loop := false;
        break;
      }
      if turns == 4 {
        loop := true;
        break;
      }
      var next := Advance(guard);
      StepInBounds(g, guard);
      if Blocked(g, next) {
        guard := TurnRight(guard);
        turns := turns + 1;
        continue;
      }
      guard := next;
      if guard in path {
        loop := true;
        break;
      }
      NewState(g, guard, path);
      path := path + [guard];
      turns := 0;
    }
    CheckLoopLeaves(g);
  }

  predicate StartInBoundsFact(g: Grid)
    requires Rectangular(g) && InitialPosition(g).Some?
  {
    InBounds(g, InitialPosition(g).value)
  }

  // ---------------------------------------------------------------------------
  // Walking

  /** `n` iterations of the walk, none from an exiting state, lead from `a` to `b`. */
  ghost predicate Walks(g: Grid, a: Position, b: Position, n: nat)
    decreases n
  {
    if n == 0 then a == b
    else Placed(g, a) && !IsExiting(g, a) && Walks(g, Next(g, a), b, n - 1)
  }

  lemma {:induction false} WalksTrans(g: Grid, a: Position, b: Position, c: Position, m: nat, n: nat)
    requires Walks(g, a, b, m) && Walks(g, b, c, n)
    ensures Walks(g, a, c, m + n)
    decreases m
  {
    if m > 0 {
      WalksTrans(g, Next(g, a), b, c, m - 1, n);
    }
  }

  lemma WalksNext(g: Grid, a: Position, b: Position, n: nat)
    requires Walks(g, a, b, n) && Placed(g, b) && !IsExiting(g, b)
    ensures Walks(g, a, Next(g, b), n + 1)
  {
    assert Walks(g, b, Next(g, b), 1);
    WalksTrans(g, a, b, Next(g, b), n, 1);
  }

  /** Walking `n` iterations spends `n` fuel: the trace from `a` exits iff the trace from `b` exits with `n` less. */
  lemma {:induction false} TraceWalks(g: Grid, a: Position, b: Position, n: nat, fuel: nat)
    requires Placed(g, a) && Walks(g, a, b, n)
    ensures Placed(g, b)
    ensures TraceFrom(g, a, fuel).Some? <==> fuel > n && TraceFrom(g, b, fuel - n).Some?
    decreases n
  {
    if n > 0 && fuel > 0 {
      TraceNext(g, a, fuel);
      TraceWalks(g, Next(g, a), b, n - 1, fuel - 1);
    } else if n > 0 {
      TraceWalks(g, Next(g, a), b, n - 1, 0);
    }
  }

  /** A state the walk returns to is never left for good. */
  lemma {:induction false} CycleNeverExits(g: Grid, q: Position, k: nat, fuel: nat)
    requires Placed(g, q) && k >= 1 && Walks(g, q, q, k)
    ensures TraceFrom(g, q, fuel).None?
    decreases fuel
  {
    TraceWalks(g, q, q, k, fuel);
    if fuel > k {
      CycleNeverExits(g, q, k, fuel - k);
    }
  }

  lemma ReachCycleNeverExits(g: Grid, s: Position, q: Position, j: nat, k: nat, fuel: nat)
    requires Placed(g, s) && Walks(g, s, q, j) && k >= 1 && Walks(g, q, q, k)
    ensures TraceFrom(g, s, fuel).None?
  {
    TraceWalks(g, s, q, j, fuel);
    if fuel > j {
      CycleNeverExits(g, q, k, fuel - j);
    }
  }

  // ---------------------------------------------------------------------------
  // The loop check is right

  /** A loop check that answers `false` has watched the guard leave. */
  lemma {:induction false} LoopExits(g: Grid, p: Position, path: seq<Position>, turns: nat) returns (fuel: nat)
    requires Rectangular(g) && InBounds(g, p) && turns <= 4
    requires !LoopFrom(g, p, path, turns)
    ensures Placed(g, p) && TraceFrom(g, p, fuel).Some?
    decreases States(g) - Visited(path), 4 - turns
  {
    if IsExiting(g, p) {
      fuel := 1;
    } else {
      var next := Advance(p);
      StepInBounds(g, p);
      if Blocked(g, next) {
        var f := LoopExits(g, TurnRight(p), path, turns + 1);
        fuel := f + 1;
      } else {
        NewState(g, next, path);
        var f := LoopExits(g, next, path + [next], 0);
        fuel := f + 1;
      }
    }
  }

  /**
   * A loop check that answers `true` has found a cycle of the walk the guard
   * is on. `dist[i]` counts the iterations from the recorded state `path[i]`
   * to the last recorded state, `turns` those from there to `p`, `walked`
   * those from `start` to `p`.
   */
  lemma {:induction false} LoopNeverExits(g: Grid, start: Position, p: Position, path: seq<Position>, turns: nat,
                                          dist: seq<nat>, walked: nat, fuel: nat)
    requires Rectangular(g) && InBounds(g, p) && turns <= 4 && Placed(g, start)
    requires LoopFrom(g, p, path, turns)
    requires |path| > 0 && |dist| == |path|
    requires forall i :: 0 <= i < |path| ==> Walks(g, path[i], path[|path| - 1], dist[i])
    requires Walks(g, path[|path| - 1], p, turns) && p == Turns(path[|path| - 1], turns)
    requires Walks(g, start, p, walked)
    ensures TraceFrom(g, start, fuel).None?
    decreases States(g) - Visited(path), 4 - turns
  {
    var last := path[|path| - 1];
    StepInBounds(g, p);
    var next := Advance(p);
    if turns == 4 || (!Blocked(g, next) && next in path) {
      LoopClosed(g, start, p, path, turns, dist, walked, fuel);
    } else if Blocked(g, next) {
      WalksNext(g, last, p, turns);
      WalksNext(g, start, p, walked);
      LoopNeverExits(g, start, TurnRight(p), path, turns + 1, dist, walked + 1, fuel);
    } else {
      NewState(g, next, path);
      var dist' := ExtendDistances(g, path, dist, p, turns);
      WalksNext(g, start, p, walked);
      LoopNeverExits(g, start, next, path + [next], 0, dist', walked + 1, fuel);
    }
  }

  /** The two ways the loop check closes a loop: four turns on one cell, or a step back into a recorded state. */
  lemma LoopClosed(g: Grid, start: Position, p: Position, path: seq<Position>, turns: nat,
                   dist: seq<nat>, walked: nat, fuel: nat)
    requires Rectangular(g) && InBounds(g, p) && turns <= 4 && Placed(g, start) && !IsExiting(g, p)
    requires turns == 4 || (!Blocked(g, Advance(p)) && Advance(p) in path)
    requires |path| > 0 && |dist| == |path|
    requires forall i :: 0 <= i < |path| ==> Walks(g, path[i], path[|path| - 1], dist[i])
    requires Walks(g, path[|path| - 1], p, turns) && p == Turns(path[|path| - 1], turns)
    requires Walks(g, start, p, walked)
    ensures TraceFrom(g, start, fuel).None?
  {
    var last := path[|path| - 1];
    if turns == 4 {
      TurnRightCycle(last);
      ReachCycleNeverExits(g, start, p, walked, 4, fuel);
    } else {
      var i :| 0 <= i < |path| && path[i] == Advance(p);
      StepBack(g, start, p, last, dist[i], turns, walked, fuel);
    }
  }

  /** A step from `p` back to a state `last` is `d` iterations from closes a cycle. */
  lemma StepBack(g: Grid, start: Position, p: Position, last: Position, d: nat, turns: nat, walked: nat, fuel: nat)
    requires Rectangular(g) && InBounds(g, p) && Placed(g, start) && !IsExiting(g, p)
    requires !Blocked(g, Advance(p))
    requires Walks(g, Advance(p), last, d) && Walks(g, last, p, turns) && Walks(g, start, p, walked)
    ensures TraceFrom(g, start, fuel).None?
  {
    var next := Advance(p);
    StepInBounds(g, p);
    assert Next(g, p) == next;
    WalksTrans(g, next, last, p, d, turns);
    WalksNext(g, next, p, d + turns);
    WalksNext(g, start, p, walked);
    ReachCycleNeverExits(g, start, next, walked + 1, d + turns + 1, fuel);
  }

  /** After a step to a new state, every recorded state still walks to the newest one. */
  lemma ExtendDistances(g: Grid, path: seq<Position>, dist: seq<nat>, p: Position, turns: nat) returns (dist': seq<nat>)
    requires |path| > 0 && |dist| == |path|
    requires forall i :: 0 <= i < |path| ==> Walks(g, path[i], path[|path| - 1], dist[i])
    requires Walks(g, path[|path| - 1], p, turns) && Placed(g, p) && !IsExiting(g, p)
    ensures |dist'| == |path| + 1
    ensures forall i :: 0 <= i < |path| + 1 ==> Walks(g, (path + [Next(g, p)])[i], Next(g, p), dist'[i])
  {
    var last := path[|path| - 1];
    var next := Next(g, p);
    dist' := seq(|path|, i requires 0 <= i < |path| => dist[i] + turns + 1) + [0];
    forall i | 0 <= i < |path| + 1
      ensures Walks(g, (path + [next])[i], next, dist'[i])
    {
      if i < |path| {
        WalksTrans(g, path[i], last, p, dist[i], turns);
        WalksNext(g, path[i], p, dist[i] + turns);
        assert (path + [next])[i] == path[i];
      }
    }
  }

  /** The loop check reports a loop exactly when the guard never leaves the map. */
  lemma CheckLoopLeaves(g: Grid)
    requires Rectangular(g) && InitialPosition(g).Some?
    ensures StartInBoundsFact(g)
    ensures LoopFrom(g, InitialPosition(g).value, [InitialPosition(g).value], 0) <==> NeverLeaves(g)
  {
    var start := InitialPosition(g).value;
    if LoopFrom(g, start, [start], 0) {
      forall fuel: nat
        ensures TraceFrom(g, start, fuel).None?
      {
        LoopNeverExits(g, start, start, [start], 0, [0], 0, fuel);
      }
    } else {
      var fuel := LoopExits(g, start, [start], 0);
      assert TraceFrom(g, start, fuel).Some?;
    }
  }

  // ---------------------------------------------------------------------------
  // A guard boxed in on its cell

  /** Every way the guard can face is blocked and none of them exits. */
  predicate BoxedIn(g: Grid, p: Position)
  {
    Placed(g, p) &&
    forall k :: 0 <= k < 4 ==>
      !IsExiting(g, Turns(p, k)) && Blocked(g, Advance(Turns(p, k)))
  }

  /** `checkLoop` as written turns for ever on a boxed-in cell. */
  lemma {:induction false} BoxedNeverReturns(g: Grid, p: Position, path: seq<Position>, k: nat, fuel: nat)
    requires BoxedIn(g, p) && k < 4
    ensures CheckFrom(g, Turns(p, k), path, fuel) == None
    decreases fuel
  {
    if fuel > 0 {
      TurnRightCycle(p);
      var k' := if k == 3 then 0 else k + 1;
      assert TurnRight(Turns(p, k)) == Turns(p, k + 1);
      BoxedNeverReturns(g, p, path, k', fuel - 1);
    }
  }

  /** The counted check reports a loop on a boxed-in cell. */
  lemma {:induction false} BoxedLoops(g: Grid, p: Position, path: seq<Position>, k: nat)
    requires Rectangular(g) && InBounds(g, p) && BoxedIn(g, p) && k <= 4
    ensures InBounds(g, Turns(p, k)) && LoopFrom(g, Turns(p, k), path, k)
    decreases 4 - k
  {
    TurnRightCycle(p);
    assert Turns(p, 0) == p;
    if k < 4 {
      BoxedLoops(g, p, path, k + 1);
      assert TurnRight(Turns(p, k)) == Turns(p, k + 1);
    }
  }

  /**
   * Wherever `checkLoop` as written returns, the counted check returns the
   * same answer. `turned` is the last state reached by a step, `turns` the
   * turns made since.
   */
  lemma {:induction false} CheckFromAgrees(g: Grid, turned: Position, p: Position, path: seq<Position>, turns: nat, fuel: nat)
    requires Rectangular(g) && InBounds(g, turned) && turns <= 4 && p == Turns(turned, turns)
    requires forall k :: 0 <= k < turns ==>
      !IsExiting(g, Turns(turned, k)) && Blocked(g, Advance(Turns(turned, k)))
    ensures InBounds(g, p) && Placed(g, p)
    ensures CheckFrom(g, p, path, fuel).Some? ==> CheckFrom(g, p, path, fuel).value == LoopFrom(g, p, path, turns)
    decreases fuel
  {
    if turns == 4 {
      TurnRightCycle(turned);
      BoxedNeverReturns(g, turned, path, 0, fuel);
    } else if fuel > 0 && !IsExiting(g, p) {
      var next := Advance(p);
      StepInBounds(g, p);
      if Blocked(g, next) {
        assert TurnRight(p) == Turns(turned, turns + 1);
        CheckFromAgrees(g, turned, TurnRight(p), path, turns + 1, fuel - 1);
      } else if next !in path {
        CheckFromAgrees(g, next, next, path + [next], 0, fuel - 1);
      }
    }
  }

  /** `checkLoop` as written, from the start of the map. */
  function CheckLoopAsWritten(g: Grid, fuel: nat): Option<bool>
    requires g.height == |g.rows| && InitialPosition(g).Some?
  {
    CheckFrom(g, InitialPosition(g).value, [InitialPosition(g).value], fuel)
  }

  /** Where `checkLoop` as written returns, it agrees with the counted check. */
  lemma CheckLoopAgrees(g: Grid, fuel: nat)
    requires Rectangular(g) && InitialPosition(g).Some?
    ensures StartInBoundsFact(g)
    ensures CheckLoopAsWritten(g, fuel).Some? ==>
      CheckLoopAsWritten(g, fuel).value == LoopFrom(g, InitialPosition(g).value, [InitialPosition(g).value], 0)
  {
    var start := InitialPosition(g).value;
    CheckFromAgrees(g, start, start, [start], 0, fuel);
  }

  /**
   * The map `.#.`, `#^#`, `...`: the guard turns twice and steps down to
   * (2, 1), so the obstruction search blocks (2, 1) and the guard boxed in
   * on its start makes `checkLoop` as written turn for ever.
   */
  lemma SampleBoxedAsWritten(g: Grid, marked: Grid)
    requires g == Grid([".#.", "#^#", "..."], 3, 3)
    requires marked == Grid([".#.", "#^#", ".#."], 3, 3)
    ensures InitialPosition(g) == Some(Position(Up, 1, 1))
    ensures TraceFrom(g, Position(Up, 1, 1), 4) == Some([Position(Down, 2, 1)])
    ensures SetMapMarker(g, 2, 1, "#") == marked
    ensures InitialPosition(marked) == Some(Position(Up, 1, 1))
    ensures forall fuel :: CheckLoopAsWritten(marked, fuel) == None
  {
    assert CaretFrom(g.rows[0], 0) == None;
    assert CaretFrom(g.rows[1], 1) == Some(1);
    assert CaretFrom(marked.rows[0], 0) == None;
    assert CaretFrom(marked.rows[1], 1) == Some(1);
    var start := Position(Up, 1, 1);
    SampleTraceBoxed(g, start);
    assert marked.rows[2] == Substring("...", 0, 1) + "#" + Substring("...", 2, 3);
    SampleBoxed(marked, start);
    forall fuel: nat
      ensures CheckLoopAsWritten(marked, fuel) == None
    {
      BoxedNeverReturns(marked, start, [start], 0, fuel);
    }
  }

  lemma SampleTraceBoxed(g: Grid, start: Position)
    requires g == Grid([".#.", "#^#", "..."], 3, 3) && start == Position(Up, 1, 1)
    ensures Placed(g, start) && TraceFrom(g, start, 4) == Some([Position(Down, 2, 1)])
  {
    assert Advance(start) == Position(Up, 0, 1) && Blocked(g, Advance(start));
    assert TurnRight(start) == Position(Right, 1, 1);
    assert Advance(Position(Right, 1, 1)) == Position(Right, 1, 2) && Blocked(g, Position(Right, 1, 2));
    assert TurnRight(Position(Right, 1, 1)) == Position(Down, 1, 1);
    assert Advance(Position(Down, 1, 1)) == Position(Down, 2, 1) && !Blocked(g, Position(Down, 2, 1));
    assert IsExiting(g, Position(Down, 2, 1));
    assert [Position(Down, 2, 1)] + [] == [Position(Down, 2, 1)];
  }

  lemma SampleBoxed(marked: Grid, start: Position)
    requires marked == Grid([".#.", "#^#", ".#."], 3, 3) && start == Position(Up, 1, 1)
    ensures Rectangular(marked) && InBounds(marked, start) && BoxedIn(marked, start)
  {
    TurnRightCycle(start);
    assert Turns(start, 1) == Position(Right, 1, 1);
    assert Turns(start, 2) == Position(Down, 1, 1);
    assert Turns(start, 3) == Position(Left, 1, 1);
  }

  /** On the same map the counted check reports the loop. */
  lemma SampleBoxedCorrected(marked: Grid)
    requires marked == Grid([".#.", "#^#", ".#."], 3, 3)
    ensures InitialPosition(marked) == Some(Position(Up, 1, 1))
    ensures Rectangular(marked) && LoopFrom(marked, Position(Up, 1, 1), [Position(Up, 1, 1)], 0)
  {
    assert CaretFrom(marked.rows[0], 0) == None;
    assert CaretFrom(marked.rows[1], 1) == Some(1);
    var start := Position(Up, 1, 1);
    SampleBoxed(marked, start);
    BoxedLoops(marked, start, [start], 0);
  }

  // ---------------------------------------------------------------------------
  // The obstruction search

  datatype Cell = Cell(row: int, col: int)

  function RowOf(c: Cell): int { c.row }

  function ColOf(c: Cell): int { c.col }

  /** A cell an obstruction may go on: inside the map and not the start. */
  predicate Candidate(g: Grid, c: Cell)
    requires InitialPosition(g).Some?
  {
    var start := InitialPosition(g).value;
    0 <= c.row < g.height && 0 <= c.col < g.width && !(c.row == start.row && c.col == start.col)
  }

  /** The cells of `path` other than the start's, in path order: the `reject` and `map` steps. */
  function PathCells(path: seq<Position>, start: Position): (cells: seq<Cell>)
    ensures forall c :: c in cells <==>
      (exists i :: 0 <= i < |path| && c == Cell(path[i].row, path[i].col)) && !(c.row == start.row && c.col == start.col)
  {
    if path == [] then []
    else
      var rest := PathCells(path[1..], start);
      assert forall i :: 0 < i < |path| ==> path[i] == path[1..][i - 1];
      if path[0].row == start.row && path[0].col == start.col then rest
      else [Cell(path[0].row, path[0].col)] + rest
  }

  lemma PathCandidates(g: Grid, path: seq<Position>)
    requires Rectangular(g) && InitialPosition(g).Some?
    requires forall i :: 0 <= i < |path| ==> InBounds(g, path[i])
    ensures forall c :: c in PathCells(path, InitialPosition(g).value) ==> Candidate(g, c)
  {
  }

  /** Marking a candidate keeps the map rectangular and the start where it was. */
  lemma MarkedMap(g: Grid, c: Cell)
    requires Rectangular(g) && InitialPosition(g).Some? && Candidate(g, c)
    ensures Rectangular(SetMapMarker(g, c.row, c.col, "#"))
    ensures InitialPosition(SetMapMarker(g, c.row, c.col, "#")) == InitialPosition(g)
  {
    var marked := SetMapMarker(g, c.row, c.col, "#");
    SetMapMarkerCell(g, c.row, c.col, "#");
    InitialPositionFirst(g);
    InitialPositionFirst(marked);
    assert forall r, k :: 0 <= r < |g.rows| && 0 <= k < |g.rows[r]| ==>
      (marked.rows[r][k] == '^' <==> g.rows[r][k] == '^' && !(r == c.row && k == c.col));
    InitialUnique(marked.rows, InitialPosition(marked), InitialPosition(g));
  }

  /** An obstruction on `c` makes the guard loop (by the counted check). */
  predicate MakesLoop(g: Grid, c: Cell)
    requires Rectangular(g) && InitialPosition(g).Some? && Candidate(g, c)
  {
    var marked := SetMapMarker(g, c.row, c.col, "#");
    MarkedMap(g, c);
    StartInBounds(marked);
    LoopFrom(marked, InitialPosition(marked).value, [InitialPosition(marked).value], 0)
  }

  /** The `filter` step. */
  function KeepLoops(g: Grid, cells: seq<Cell>): (kept: seq<Cell>)
    requires Rectangular(g) && InitialPosition(g).Some?
    requires forall i :: 0 <= i < |cells| ==> Candidate(g, cells[i])
    ensures forall i :: 0 <= i < |kept| ==> Candidate(g, kept[i])
    ensures forall c :: c in kept <==> c in cells && MakesLoop(g, c)
    ensures Seqs.Subsequence(kept, cells)
  {
    if cells == [] then []
    else
      var rest := KeepLoops(g, cells[1..]);
      assert forall i :: 0 < i < |cells| ==> cells[i] == cells[1..][i - 1];
      if MakesLoop(g, cells[0]) then
        assert ([cells[0]] + rest)[1..] == rest;
        [cells[0]] + rest
      else
        Seqs.SubsequenceSkip(rest, cells);
        rest
  }

  /**
   * `findAllPossibleLoopObstructions`: the distinct cells of the path other
   * than the start, kept when an obstruction there makes the guard loop,
   * ordered by row and then by column (two stable sorts).
   */
  function FindAllPossibleLoopObstructions(g: Grid, guardPath: seq<Position>): (obstructions: seq<Cell>)
    requires Rectangular(g) && InitialPosition(g).Some?
    requires forall i :: 0 <= i < |guardPath| ==> InBounds(g, guardPath[i])
  {
    var candidates := Seqs.Dedup(PathCells(guardPath, InitialPosition(g).value));
    PathCandidates(g, guardPath);
    Sorting.SortBy(Sorting.SortBy(KeepLoops(g, candidates), ColOf), RowOf)
  }

  /** Keeping some cells of a list without repeats leaves a list without repeats. */
  lemma {:induction false} KeepLoopsDistinct(g: Grid, cells: seq<Cell>)
    requires Rectangular(g) && InitialPosition(g).Some?
    requires forall i :: 0 <= i < |cells| ==> Candidate(g, cells[i])
    requires Seqs.Distinct(cells)
    ensures Seqs.Distinct(KeepLoops(g, cells))
  {
    if cells != [] {
      var rest := KeepLoops(g, cells[1..]);
      KeepLoopsDistinct(g, cells[1..]);
      assert cells[0] !in cells[1..];
      assert cells[0] !in rest;
      if MakesLoop(g, cells[0]) {
        Seqs.DistinctCons(cells[0], rest);
      }
    }
  }

  /** The obstructions found are exactly the cells of the path, other than the start, where an obstruction makes the guard loop. */
  lemma FindAllMembers(g: Grid, guardPath: seq<Position>, c: Cell)
    requires Rectangular(g) && InitialPosition(g).Some?
    requires forall i :: 0 <= i < |guardPath| ==> InBounds(g, guardPath[i])
    ensures c in FindAllPossibleLoopObstructions(g, guardPath) <==>
      (exists i :: 0 <= i < |guardPath| && c == Cell(guardPath[i].row, guardPath[i].col)) &&
      Candidate(g, c) && MakesLoop(g, c)
  {
    var start := InitialPosition(g).value;
    var cells := PathCells(guardPath, start);
    var candidates := Seqs.Dedup(cells);
    PathCandidates(g, guardPath);
    var kept := KeepLoops(g, candidates);
    var byCol := Sorting.SortBy(kept, ColOf);
    var r := Sorting.SortBy(byCol, RowOf);
    assert c in r <==> c in multiset(r);
    assert c in byCol <==> c in multiset(byCol);
    assert c in kept <==> c in multiset(kept);
    assert c in candidates <==> c in cells;
  }

  /** No cell is found twice. */
  lemma FindAllDistinct(g: Grid, guardPath: seq<Position>)
    requires Rectangular(g) && InitialPosition(g).Some?
    requires forall i :: 0 <= i < |guardPath| ==> InBounds(g, guardPath[i])
    ensures Seqs.Distinct(FindAllPossibleLoopObstructions(g, guardPath))
  {
    var candidates := Seqs.Dedup(PathCells(guardPath, InitialPosition(g).value));
    PathCandidates(g, guardPath);
    var kept := KeepLoops(g, candidates);
    KeepLoopsDistinct(g, candidates);
    Sorting.SortByDistinct(kept, ColOf);
    Sorting.SortByDistinct(Sorting.SortBy(kept, ColOf), RowOf);
  }

  /** The cells found are ordered by row, and the cells of one row by column. */
  lemma FindAllSorted(g: Grid, guardPath: seq<Position>)
    requires Rectangular(g) && InitialPosition(g).Some?
    requires forall i :: 0 <= i < |guardPath| ==> InBounds(g, guardPath[i])
    ensures Sorting.SortedBy(FindAllPossibleLoopObstructions(g, guardPath), RowOf)
    ensures forall k :: Sorting.SortedBy(Sorting.KeyFilter(FindAllPossibleLoopObstructions(g, guardPath), RowOf, k), ColOf)
  {
    var candidates := Seqs.Dedup(PathCells(guardPath, InitialPosition(g).value));
    PathCandidates(g, guardPath);
    var byCol := Sorting.SortBy(KeepLoops(g, candidates), ColOf);
    var r := Sorting.SortBy(byCol, RowOf);
    forall k
      ensures Sorting.SortedBy(Sorting.KeyFilter(r, RowOf, k), ColOf)
    {
      Sorting.KeyFilterSorted(byCol, RowOf, ColOf, k);
    }
  }

  /** An obstruction on a candidate cell makes the guard loop exactly when it then never leaves the map. */
  lemma MakesLoopNeverLeaves(g: Grid, c: Cell)
    requires Rectangular(g) && InitialPosition(g).Some? && Candidate(g, c)
    ensures Rectangular(SetMapMarker(g, c.row, c.col, "#")) && InitialPosition(SetMapMarker(g, c.row, c.col, "#")).Some?
    ensures MakesLoop(g, c) <==> NeverLeaves(SetMapMarker(g, c.row, c.col, "#"))
  {
    MarkedMap(g, c);
    CheckLoopLeaves(SetMapMarker(g, c.row, c.col, "#"));
  }

  /** On the map `.#.`, `#^#`, `...` the one cell of the path other than the start is an obstruction that makes a loop. */
  lemma SampleFindAll(g: Grid, guardPath: seq<Position>)
    requires g == Grid([".#.", "#^#", "..."], 3, 3)
    requires guardPath == [Position(Up, 1, 1), Position(Down, 2, 1)]
    ensures Rectangular(g) && InitialPosition(g).Some?
    ensures forall i :: 0 <= i < |guardPath| ==> InBounds(g, guardPath[i])
    ensures FindAllPossibleLoopObstructions(g, guardPath) == [Cell(2, 1)]
  {
    SamplePathInBounds(g, guardPath);
    SampleCandidates(g, guardPath);
    SampleKeep(g);
    var kept := KeepLoops(g, [Cell(2, 1)]);
    SortSingleton(kept, ColOf);
    SortSingleton(kept, RowOf);
  }

  lemma SamplePathInBounds(g: Grid, guardPath: seq<Position>)
    requires g.height == 3 && g.width == 3
    requires guardPath == [Position(Up, 1, 1), Position(Down, 2, 1)]
    ensures forall i :: 0 <= i < |guardPath| ==> InBounds(g, guardPath[i])
  {
  }

  lemma SampleCandidates(g: Grid, guardPath: seq<Position>)
    requires g == Grid([".#.", "#^#", "..."], 3, 3)
    requires guardPath == [Position(Up, 1, 1), Position(Down, 2, 1)]
    ensures InitialPosition(g) == Some(Position(Up, 1, 1))
    ensures Seqs.Dedup(PathCells(guardPath, Position(Up, 1, 1))) == [Cell(2, 1)]
  {
    assert CaretFrom(g.rows[0], 0) == None;
    assert CaretFrom(g.rows[1], 1) == Some(1);
    var start := Position(Up, 1, 1);
    var cells := PathCells(guardPath, start);
    assert PathCells(guardPath[1..], start) == [Cell(2, 1)] + PathCells([], start);
    assert cells == [Cell(2, 1)];
    Seqs.DedupDistinct(cells);
  }

  lemma SampleKeep(g: Grid)
    requires g == Grid([".#.", "#^#", "..."], 3, 3)
    ensures Rectangular(g) && InitialPosition(g) == Some(Position(Up, 1, 1)) && Candidate(g, Cell(2, 1))
    ensures KeepLoops(g, [Cell(2, 1)]) == [Cell(2, 1)]
  {
    var marked := Grid([".#.", "#^#", ".#."], 3, 3);
    SampleBoxedAsWritten(g, marked);
    SampleBoxedCorrected(marked);
    assert MakesLoop(g, Cell(2, 1));
    assert [Cell(2, 1)][1..] == [];
  }

  lemma SortSingleton(s: seq<Cell>, key: Cell -> int)
    requires |s| == 1
    ensures Sorting.SortBy(s, key) == s
  {
    var r := Sorting.SortBy(s, key);
    assert r[0] in multiset(r);
    assert r == [r[0]] && s == [s[0]];
  }
}
