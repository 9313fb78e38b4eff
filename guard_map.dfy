/**
 * The guard's walk on a map of the lab (day 6): a guard at `^` walks straight
 * up, turns right in front of every `#`, and leaves the map over the edge it
 * faces. This module holds the walking rules, the search for the start, the
 * traced path, the drawing of the visited cells and the placing of a marker.
 */
module GuardMap {
  import opened Wrappers
  import Seqs

  datatype Direction = Up | Right | Down | Left

  /** A guard state: where the guard stands and which way it faces. */
  datatype Position = Position(direction: Direction, row: int, col: int)

  /** A guard map: its lines and the height and width it declares. */
  datatype Grid = Grid(rows: seq<string>, height: int, width: int)

  function Abs(x: int): nat
  {
    if x < 0 then -x else x
  }

  // ---------------------------------------------------------------------------
  // One step of the guard

  /** `turnGuardRight`: a quarter turn clockwise on the spot. */
  function TurnRight(p: Position): (q: Position)
    ensures q.row == p.row && q.col == p.col
  {
    var d := match p.direction
      case Up => Right
      case Right => Down
      case Down => Left
      case Left => Up;
    p.(direction := d)
  }

  /** `n` quarter turns. */
  function Turns(p: Position, n: nat): (q: Position)
    ensures q.row == p.row && q.col == p.col
  {
    if n == 0 then p else TurnRight(Turns(p, n - 1))
  }

  /** Four right turns face the guard the way it started, and fewer never do. */
  lemma TurnRightCycle(p: Position)
    ensures Turns(p, 4) == p
    ensures forall k :: 1 <= k < 4 ==> Turns(p, k).direction != p.direction
  {
    assert Turns(p, 1) == TurnRight(p);
    assert Turns(p, 2) == TurnRight(TurnRight(p));
    assert Turns(p, 3) == TurnRight(TurnRight(TurnRight(p)));
  }

  /** `advanceGuard`: one cell ahead, facing the same way. */
  function Advance(p: Position): (q: Position)
    ensures q.direction == p.direction
    ensures Abs(q.row - p.row) + Abs(q.col - p.col) == 1
  {
    match p.direction
    case Up => p.(row := p.row - 1)
    case Down => p.(row := p.row + 1)
    case Left => p.(col := p.col - 1)
    case Right => p.(col := p.col + 1)
  }

  /** `guardIsExiting`: the guard stands on the edge of the map it faces. */
  predicate IsExiting(g: Grid, p: Position)
  {
    match p.direction
    case Up => p.row == 0
    case Down => p.row == g.height - 1
    case Left => p.col == 0
    case Right => p.col == g.width - 1
  }

  /** The cell lies within the declared height and width. */
  predicate InBounds(g: Grid, p: Position)
  {
    0 <= p.row < g.height && 0 <= p.col < g.width
  }

  /** For a guard inside the map, exiting means that the step ahead leaves the map. */
  lemma ExitingLeaves(g: Grid, p: Position)
    requires InBounds(g, p)
    ensures IsExiting(g, p) <==> !InBounds(g, Advance(p))
  {
  }

  /** `guardMap.map[row][col]`: `None` past the end of the line, where the source reads `undefined`. */
  function CellAt(g: Grid, row: int, col: int): (cell: Option<char>)
    requires 0 <= row < |g.rows|
    ensures cell.Some? <==> 0 <= col < |g.rows[row]|
    ensures cell.Some? ==> cell.value == g.rows[row][col]
  {
    if 0 <= col < |g.rows[row]| then Some(g.rows[row][col]) else None
  }

  /** The guard's cell holds an obstruction. */
  predicate Blocked(g: Grid, p: Position)
    requires 0 <= p.row < |g.rows|
  {
    CellAt(g, p.row, p.col) == Some('#')
  }

  /**
   * The guard stands on a line of a map whose height is its number of lines;
   * then every step keeps it on a line (a column past the end of a line reads
   * as a free cell).
   */
  predicate Placed(g: Grid, p: Position)
  {
    g.height == |g.rows| && 0 <= p.row < g.height && 0 <= p.col
  }

  lemma AdvancePlaced(g: Grid, p: Position)
    requires Placed(g, p) && !IsExiting(g, p)
    ensures Placed(g, Advance(p))
  {
  }

  /** One iteration of the walk: a turn in front of an obstruction, a step otherwise. */
  function Next(g: Grid, p: Position): (q: Position)
    requires Placed(g, p) && !IsExiting(g, p)
    ensures Placed(g, q)
  {
    AdvancePlaced(g, p);
    if Blocked(g, Advance(p)) then TurnRight(p) else Advance(p)
  }

  // ---------------------------------------------------------------------------
  // The start

  /** The first `^` of `line` at or after `c`. */
  function CaretFrom(line: string, c: nat): (k: Option<nat>)
    requires c <= |line|
    ensures k.Some? ==> c <= k.value < |line|
    decreases |line| - c
  {
    if c == |line| then None
    else if line[c] == '^' then Some(c)
    else CaretFrom(line, c + 1)
  }

  /** The first `^` in row-major order from line `r` on, facing up. */
  function InitialFrom(rows: seq<string>, r: nat): (start: Option<Position>)
    requires r <= |rows|
    ensures start.Some? ==> r <= start.value.row < |rows| && 0 <= start.value.col < |rows[start.value.row]|
    decreases |rows| - r
  {
    if r == |rows| then None
    else match CaretFrom(rows[r], 0)
      case Some(c) => Some(Position(Up, r, c))
      case None => InitialFrom(rows, r + 1)
  }

  /** The state `getInitialPosition` returns; `None` where it returns `undefined`. */
  function InitialPosition(g: Grid): (start: Option<Position>)
    ensures start.Some? ==> 0 <= start.value.row < |g.rows| && 0 <= start.value.col < |g.rows[start.value.row]|
  {
    InitialFrom(g.rows, 0)
  }

  /** `start` is the first `^` in row-major order, facing up, or there is no `^`. */
  ghost predicate IsInitial(rows: seq<string>, start: Option<Position>)
  {
    match start
    case None =>
      forall r, c :: 0 <= r < |rows| && 0 <= c < |rows[r]| ==> rows[r][c] != '^'
    case Some(p) =>
      p.direction == Up && 0 <= p.row < |rows| && 0 <= p.col < |rows[p.row]| && rows[p.row][p.col] == '^' &&
      (forall r, c :: 0 <= r < p.row && 0 <= c < |rows[r]| ==> rows[r][c] != '^') &&
      (forall c :: 0 <= c < p.col ==> rows[p.row][c] != '^')
  }

  lemma {:induction false} CaretFromFirst(line: string, c: nat)
    requires c <= |line|
    ensures match CaretFrom(line, c)
      case None => forall j :: c <= j < |line| ==> line[j] != '^'
      case Some(k) => c <= k < |line| && line[k] == '^' && forall j :: c <= j < k ==> line[j] != '^'
    decreases |line| - c
  {
    if c < |line| && line[c] != '^' {
      CaretFromFirst(line, c + 1);
    }
  }

  lemma {:induction false} InitialFromFirst(rows: seq<string>, r: nat)
    requires r <= |rows|
    requires forall i, c :: 0 <= i < r && 0 <= c < |rows[i]| ==> rows[i][c] != '^'
    ensures IsInitial(rows, InitialFrom(rows, r))
    decreases |rows| - r
  {
    if r < |rows| {
      CaretFromFirst(rows[r], 0);
      if CaretFrom(rows[r], 0).None? {
        InitialFromFirst(rows, r + 1);
      }
    }
  }

  /** `getInitialPosition` finds the first `^` in row-major order, or reports that there is none. */
  lemma InitialPositionFirst(g: Grid)
    ensures IsInitial(g.rows, InitialPosition(g))
  {
    InitialFromFirst(g.rows, 0);
  }

  /** At most one state is the start. */
  lemma InitialUnique(rows: seq<string>, a: Option<Position>, b: Option<Position>)
    requires IsInitial(rows, a) && IsInitial(rows, b)
    ensures a == b
  {
    if a.Some? {
      var p := a.value;
      assert b.Some?;
      var q := b.value;
      assert p.row <= q.row && q.row <= p.row;
      assert p.col <= q.col && q.col <= p.col;
    } else {
      assert b.None?;
    }
  }

  /** `getInitialPosition`: row by row, cell by cell, until the first `^`. */
  method GetInitialPosition(g: Grid) returns (start: Option<Position>)
    ensures start == InitialPosition(g)
  {
    InitialPositionFirst(g);
    for row := 0 to |g.rows|
      invariant forall r, c :: 0 <= r < row && 0 <= c < |g.rows[r]| ==> g.rows[r][c] != '^'
    {
      for col := 0 to |g.rows[row]|
        invariant forall c :: 0 <= c < col ==> g.rows[row][c] != '^'
      {
        if g.rows[row][col] == '^' {
          start := Some(Position(Up, row, col));
          InitialUnique(g.rows, start, InitialPosition(g));
          return;
        }
      }
    }
    start := None;
    InitialUnique(g.rows, start, InitialPosition(g));
  }

  // ---------------------------------------------------------------------------
  // The traced path

  /**
   * The positions the walk from `p` pushes onto the path until the guard
   * exits; `None` when `fuel` iterations do not reach the exit (the source
   * loops for ever when there is none).
   */
  function TraceFrom(g: Grid, p: Position, fuel: nat): Option<seq<Position>>
    requires Placed(g, p)
    decreases fuel
  {
    if fuel == 0 then None
    else if IsExiting(g, p) then Some([])
    else
      var next := Advance(p);
      AdvancePlaced(g, p);
      if Blocked(g, next) then TraceFrom(g, TurnRight(p), fuel - 1)
      else match TraceFrom(g, next, fuel - 1)
        case None => None
        case Some(t) => Some([next] + t)
  }

  /** `traceGuardPath`, for a map on which `fuel` iterations take the guard out. */
  method TraceGuardPath(g: Grid, ghost fuel: nat) returns (path: seq<Position>)
    requires g.height == |g.rows|
    requires InitialPosition(g).Some?
    requires TraceFrom(g, InitialPosition(g).value, fuel).Some?
    ensures path == [InitialPosition(g).value] + TraceFrom(g, InitialPosition(g).value, fuel).value
  {
    InitialPositionFirst(g);
    var start := GetInitialPosition(g);
    var initial := start.value;
    var guard := initial;
    path := [initial];
    ghost var f := fuel;
    while true
      invariant Placed(g, guard)
      invariant TraceFrom(g, guard, f).Some?
      invariant path + TraceFrom(g, guard, f).value == [initial] + TraceFrom(g, initial, fuel).value
      decreases f
    {
      if IsExiting(g, guard) {
        break;
      }
      var next := Advance(guard);
      AdvancePlaced(g, guard);
      if Blocked(g, next) {
        guard := TurnRight(guard);
        f := f - 1;
        continue;
      }
      guard := next;
      path := path + [guard];
      f := f - 1;
    }
  }

  /** More iterations than needed change nothing: the path does not depend on the fuel. */
  lemma {:induction false} TraceFuel(g: Grid, p: Position, fuel: nat, more: nat)
    requires Placed(g, p) && TraceFrom(g, p, fuel).Some? && fuel <= more
    ensures TraceFrom(g, p, more) == TraceFrom(g, p, fuel)
    decreases fuel
  {
    if !IsExiting(g, p) {
      AdvancePlaced(g, p);
      if Blocked(g, Advance(p)) {
        TraceFuel(g, TurnRight(p), fuel - 1, more - 1);
      } else {
        TraceFuel(g, Advance(p), fuel - 1, more - 1);
      }
    }
  }

  /** `b` is one step ahead of `a`'s cell, in the direction `b` faces. */
  predicate StepApart(a: Position, b: Position)
  {
    b == Advance(Position(b.direction, a.row, a.col))
  }

  /**
   * Along a traced path every entry is one step from the one before it, after
   * the turns in between, and no entry stands on an obstruction.
   */
  ghost predicate WellTraced(g: Grid, path: seq<Position>)
  {
    forall i :: 0 < i < |path| ==>
      Placed(g, path[i]) && !Blocked(g, path[i]) && StepApart(path[i - 1], path[i])
  }

  /** The path of `traceGuardPath`: single steps onto free cells, ending on an edge the guard faces. */
  lemma {:induction false} TraceShape(g: Grid, p: Position, fuel: nat) returns (exit: Position)
    requires Placed(g, p) && TraceFrom(g, p, fuel).Some?
    ensures WellTraced(g, [p] + TraceFrom(g, p, fuel).value)
    ensures var path := [p] + TraceFrom(g, p, fuel).value;
      IsExiting(g, exit) && exit.row == path[|path| - 1].row && exit.col == path[|path| - 1].col
    decreases fuel
  {
    if IsExiting(g, p) {
      exit := p;
    } else {
      var next := Advance(p);
      AdvancePlaced(g, p);
      if Blocked(g, next) {
        exit := TraceShape(g, TurnRight(p), fuel - 1);
        TracedTurn(g, p, TraceFrom(g, p, fuel).value);
      } else {
        exit := TraceShape(g, next, fuel - 1);
        var t := TraceFrom(g, next, fuel - 1).value;
        assert [p] + TraceFrom(g, p, fuel).value == [p] + ([next] + t);
        TracedStep(g, p, next, t);
      }
    }
  }

  lemma TracedTurn(g: Grid, p: Position, t: seq<Position>)
    requires WellTraced(g, [TurnRight(p)] + t)
    ensures WellTraced(g, [p] + t)
  {
    var a, b := [TurnRight(p)] + t, [p] + t;
    forall i | 0 < i < |b|
      ensures Placed(g, b[i]) && !Blocked(g, b[i]) && StepApart(b[i - 1], b[i])
    {
      assert b[i] == a[i];
      assert b[i - 1].row == a[i - 1].row && b[i - 1].col == a[i - 1].col;
    }
  }

  lemma TracedStep(g: Grid, p: Position, next: Position, t: seq<Position>)
    requires Placed(g, next) && next == Advance(p) && !Blocked(g, next)
    requires WellTraced(g, [next] + t)
    ensures WellTraced(g, [p] + ([next] + t))
  {
    var a, b := [next] + t, [p] + ([next] + t);
    forall i | 0 < i < |b|
      ensures Placed(g, b[i]) && !Blocked(g, b[i]) && StepApart(b[i - 1], b[i])
    {
      if i > 1 {
        assert b[i] == a[i - 1] && b[i - 1] == a[i - 2];
      }
    }
  }

  /** One iteration keeps the walk's outcome: the trace from `p` exits iff the trace from `Next(p)` does. */
  lemma TraceNext(g: Grid, p: Position, fuel: nat)
    requires Placed(g, p) && !IsExiting(g, p) && fuel > 0
    ensures TraceFrom(g, p, fuel).Some? <==> TraceFrom(g, Next(g, p), fuel - 1).Some?
  {
    AdvancePlaced(g, p);
  }

  // ---------------------------------------------------------------------------
  // The visited map

  /** The direction of the last visit to cell (`row`, `col`) along `path`. */
  function LastVisit(path: seq<Position>, row: int, col: int): Option<Direction>
  {
    if path == [] then None
    else
      var p := path[|path| - 1];
      if p.row == row && p.col == col then Some(p.direction) else LastVisit(path[..|path| - 1], row, col)
  }

  /** The direction of the first visit to cell (`row`, `col`) along `path`: what `uniqBy` keeps. */
  function FirstVisit(path: seq<Position>, row: int, col: int): Option<Direction>
  {
    if path == [] then None
    else if path[0].row == row && path[0].col == col then Some(path[0].direction)
    else FirstVisit(path[1..], row, col)
  }

  /** The first visit along the reversed path is the last visit along the path. */
  lemma {:induction false} FirstVisitReverse(path: seq<Position>, row: int, col: int)
    ensures FirstVisit(Seqs.Reverse(path), row, col) == LastVisit(path, row, col)
  {
    if path != [] {
      var init := path[..|path| - 1];
      assert Seqs.Reverse(path)[1..] == Seqs.Reverse(init);
      FirstVisitReverse(init, row, col);
    }
  }

  /** The marker of a direction: `^`, `v`, `>` or `<`. */
  function Marker(d: Direction): char
  {
    match d
    case Up => '^'
    case Down => 'v'
    case Right => '>'
    case Left => '<'
  }

  /** What the drawing shows for a cell holding `ch` whose first visit (in `visits`) faced `visit`. */
  function Shown(ch: char, visit: Option<Direction>): char
  {
    match visit
    case Some(d) => Marker(d)
    case None => ch
  }

  /** The drawing of line `r`, given the visits in the order the drawing consults them. */
  function RenderLine(g: Grid, visits: seq<Position>, r: nat): (line: string)
    requires r < |g.rows|
    ensures |line| == |g.rows[r]|
    ensures forall c :: 0 <= c < |line| ==> line[c] == Shown(g.rows[r][c], FirstVisit(visits, r, c))
  {
    seq(|g.rows[r]|, c requires 0 <= c < |g.rows[r]| => Shown(g.rows[r][c], FirstVisit(visits, r, c)))
  }

  function Render(g: Grid, visits: seq<Position>): (lines: seq<string>)
    ensures |lines| == |g.rows|
    ensures forall r :: 0 <= r < |lines| ==> lines[r] == RenderLine(g, visits, r)
  {
    seq(|g.rows|, r requires 0 <= r < |g.rows| => RenderLine(g, visits, r))
  }

  /** `_.reverse` on an array: reverses it in place. */
  method ReverseInPlace<T>(a: array<T>)
    modifies a
    ensures a[..] == Seqs.Reverse(old(a[..]))
  {
    var i, j := 0, a.Length - 1;
    while i < j
      invariant 0 <= i <= a.Length && j == a.Length - 1 - i
      invariant i <= j + 2
      invariant forall k :: 0 <= k < i ==> a[k] == old(a[a.Length - 1 - k]) && a[a.Length - 1 - k] == old(a[k])
      invariant forall k :: i <= k <= j ==> a[k] == old(a[k])
    {
      a[i], a[j] := a[j], a[i];
      i, j := i + 1, j - 1;
    }
  }

  /**
   * `visitedMap`: reverses the caller's path in place, then draws the map
   * with every visited cell showing the direction of its last visit.
   */
  method VisitedMap(g: Grid, guardPath: array<Position>) returns (lines: seq<string>)
    modifies guardPath
    ensures guardPath[..] == Seqs.Reverse(old(guardPath[..]))
    ensures |lines| == |g.rows|
    ensures forall r :: 0 <= r < |lines| ==> |lines[r]| == |g.rows[r]|
    ensures forall r, c :: 0 <= r < |lines| && 0 <= c < |lines[r]| ==>
      lines[r][c] == Shown(g.rows[r][c], LastVisit(old(guardPath[..]), r, c))
  {
    ReverseInPlace(guardPath);
    lines := Render(g, guardPath[..]);
    forall r, c | 0 <= r < |lines| && 0 <= c < |lines[r]|
      ensures lines[r][c] == Shown(g.rows[r][c], LastVisit(old(guardPath[..]), r, c))
    {
      FirstVisitReverse(old(guardPath[..]), r, c);
    }
  }

  // ---------------------------------------------------------------------------
  // Placing a marker

  function Clamp(i: int, n: nat): (k: nat)
    ensures k <= n
  {
    if i < 0 then 0 else if i > n then n else i
  }

  /** JavaScript `s.substring(start, end)`: both ends clamped to the string, swapped when out of order. */
  function Substring(s: string, start: int, end: int): string
  {
    var a, b := Clamp(start, |s|), Clamp(end, |s|);
    if a <= b then s[a..b] else s[b..a]
  }

  /** `setMapMarker`: a copy of the map with line `row` rebuilt around `marker` at `col`. */
  function SetMapMarker(g: Grid, row: int, col: int, marker: string): (marked: Grid)
    requires 0 <= row < |g.rows|
    ensures marked.height == g.height && marked.width == g.width && |marked.rows| == |g.rows|
    ensures forall r :: 0 <= r < |g.rows| && r != row ==> marked.rows[r] == g.rows[r]
  {
    var line := g.rows[row];
    g.(rows := g.rows[row := Substring(line, 0, col) + marker + Substring(line, col + 1, |line|)])
  }

  /** A one-character marker inside the line replaces exactly that cell. */
  lemma SetMapMarkerCell(g: Grid, row: int, col: int, marker: string)
    requires 0 <= row < |g.rows| && 0 <= col < |g.rows[row]| && |marker| == 1
    ensures var line := SetMapMarker(g, row, col, marker).rows[row];
      |line| == |g.rows[row]| && line[col] == marker[0] &&
      forall c :: 0 <= c < |line| && c != col ==> line[c] == g.rows[row][c]
  {
    var line := g.rows[row];
    assert SetMapMarker(g, row, col, marker).rows[row] == line[..col] + marker + line[col + 1..];
  }

  /** Past the end of the line the marker is appended; before its start it is prepended. */
  lemma SetMapMarkerOutside(g: Grid, row: int, col: int, marker: string)
    requires 0 <= row < |g.rows|
    ensures col >= |g.rows[row]| ==> SetMapMarker(g, row, col, marker).rows[row] == g.rows[row] + marker
    ensures col < 0 ==> SetMapMarker(g, row, col, marker).rows[row] == marker + g.rows[row]
  {
    var line := g.rows[row];
    if col >= |line| {
      assert Substring(line, 0, col) == line;
      assert Substring(line, col + 1, |line|) == [];
    } else if col < 0 {
      assert Substring(line, 0, col) == [];
      assert Substring(line, col + 1, |line|) == line;
    }
  }

  // ---------------------------------------------------------------------------
  // Samples

  /** A guard below a free cell walks up and out. */
  lemma SampleTraceStraight(g: Grid)
    requires g == Grid([".", "^"], 2, 1)
    ensures InitialPosition(g) == Some(Position(Up, 1, 0))
    ensures TraceFrom(g, Position(Up, 1, 0), 2) == Some([Position(Up, 0, 0)])
  {
    assert CaretFrom(g.rows[0], 0) == None;
    assert Placed(g, Position(Up, 1, 0)) && !IsExiting(g, Position(Up, 1, 0));
    assert Advance(Position(Up, 1, 0)) == Position(Up, 0, 0) && !Blocked(g, Position(Up, 0, 0));
    assert TraceFrom(g, Position(Up, 0, 0), 1) == Some([]);
    assert [Position(Up, 0, 0)] + [] == [Position(Up, 0, 0)];
  }

  /** A guard meeting an obstruction turns right and leaves to the right. */
  lemma SampleTraceTurn(g: Grid)
    requires g == Grid(["#.", "..", "^."], 3, 2)
    ensures InitialPosition(g) == Some(Position(Up, 2, 0))
    ensures TraceFrom(g, Position(Up, 2, 0), 4) == Some([Position(Up, 1, 0), Position(Right, 1, 1)])
  {
    assert CaretFrom(g.rows[0], 0) == None;
    assert CaretFrom(g.rows[1], 0) == None;
    assert TraceFrom(g, Position(Right, 1, 1), 1) == Some([]);
    assert Placed(g, Position(Right, 1, 0)) && !IsExiting(g, Position(Right, 1, 0));
    assert Advance(Position(Right, 1, 0)) == Position(Right, 1, 1) && !Blocked(g, Position(Right, 1, 1));
    assert [Position(Right, 1, 1)] + [] == [Position(Right, 1, 1)];
    assert TraceFrom(g, Position(Right, 1, 0), 2) == Some([Position(Right, 1, 1)]);
    assert Placed(g, Position(Up, 1, 0)) && !IsExiting(g, Position(Up, 1, 0));
    assert Advance(Position(Up, 1, 0)) == Position(Up, 0, 0) && Blocked(g, Position(Up, 0, 0));
    assert TraceFrom(g, Position(Up, 1, 0), 3) == Some([Position(Right, 1, 1)]);
    assert Placed(g, Position(Up, 2, 0)) && !IsExiting(g, Position(Up, 2, 0));
    assert Advance(Position(Up, 2, 0)) == Position(Up, 1, 0) && !Blocked(g, Position(Up, 1, 0));
    assert [Position(Up, 1, 0)] + [Position(Right, 1, 1)] == [Position(Up, 1, 0), Position(Right, 1, 1)];
  }
}
