/** The guard patrol of day 6: a guard walks a rectangular map, turning right once
    in front of an obstruction, until it steps off the map. */
module GuardPatrol {
  import opened Wrappers

  /** A map coordinate; x grows to the east, y grows to the south. Equality (and
      so set membership) is structural on the pair (x, y). */
  datatype Point = Point(x: int, y: int)
  {
    /** This point translated by (dx, dy). */
    function AddDelta(dx: int, dy: int): (q: Point)
      ensures q.x - x == dx && q.y - y == dy
    {
      Point(x + dx, y + dy)
    }
  }

  /** The four headings, numbered as in the source's integer enumeration. */
  datatype Direction = North | East | South | West
  {
    function Value(): (v: nat)
      ensures v < 4
    {
      match this
      case North => 0
      case East => 1
      case South => 2
      case West => 3
    }

    static function FromValue(v: nat): (d: Direction)
      requires v < 4
      ensures d.Value() == v
    {
      if v == 0 then North else if v == 1 then East else if v == 2 then South else West
    }

    /** The unit step taken when moving one cell in this direction. */
    function Movement(): (delta: (int, int))
      ensures delta.0 * delta.0 + delta.1 * delta.1 == 1
    {
      match this
      case North => (0, -1)
      case East => (1, 0)
      case South => (0, 1)
      case West => (-1, 0)
    }

    /** The next heading clockwise: the enumeration value plus one, modulo 4. The
        movement vector turns by a quarter clockwise (y points south). */
    function RotateRight(): (d: Direction)
      ensures d.Value() == (Value() + 1) % 4
      ensures d.Movement() == (-Movement().1, Movement().0)
      ensures d != this
    {
      FromValue((Value() + 1) % 4)
    }
  }

  /** The static description of the map: its extent, the obstructed cells and the
      guard's starting place and heading. */
  datatype GuardMapInfo = GuardMapInfo(
    width: int,
    height: int,
    obstructions: seq<Point>,
    start: Point,
    startDir: Direction)
  {
    /** The loop condition of the patrol. */
    predicate InMap(p: Point) {
      0 <= p.x < width && 0 <= p.y < height
    }
  }

  /** The moving part of the patrol: where the guard stands and where it faces. */
  datatype Guard = Guard(pos: Point, dir: Direction)

  /** The cell one step from pos in direction dir. */
  function Ahead(pos: Point, dir: Direction): Point {
    pos.AddDelta(dir.Movement().0, dir.Movement().1)
  }

  /** One pass through the body of the patrol loop. Only the cell straight ahead is
      checked: when it is obstructed the guard turns right once and then moves to the
      cell ahead in the new heading without checking that one. */
  function Step(m: GuardMapInfo, g: Guard): (r: Guard)
    ensures r.pos == Ahead(g.pos, r.dir)
    ensures r.dir == g.dir <==> Ahead(g.pos, g.dir) !in m.obstructions
    ensures r.dir == g.dir || r.dir == g.dir.RotateRight()
  {
    var next := Ahead(g.pos, g.dir);
    if next in m.obstructions then
      var d := g.dir.RotateRight();
      Guard(Ahead(g.pos, d), d)
    else
      Guard(next, g.dir)
  }

  /** The guard after n passes through the loop body, ignoring the loop condition. */
  function Walk(m: GuardMapInfo, g: Guard, n: nat): Guard
    decreases n
  {
    if n == 0 then g else Walk(m, Step(m, g), n - 1)
  }

  /** The positions moved into during the first k passes. */
  function Entered(m: GuardMapInfo, g: Guard, k: nat): set<Point> {
    set i | 1 <= i <= k :: Walk(m, g, i).pos
  }

  /** The positions occupied at the start of each of the first k passes. */
  function Occupied(m: GuardMapInfo, g: Guard, k: nat): set<Point> {
    set i | 0 <= i < k :: Walk(m, g, i).pos
  }

  /** How a bounded run of the patrol loop ends: the guard left the map after
      `steps` passes with `visited` as the final visited set, or the fuel ran out
      while it was still on the map. */
  datatype Outcome = Exited(steps: nat, last: Guard, visited: set<Point>) | OutOfFuel

  /** The patrol loop, run for at most `fuel` passes: while the guard is on the map it
      takes a step and adds its new position, on or off the map, to `visited`. */
  function Patrol(m: GuardMapInfo, g: Guard, visited: set<Point>, fuel: nat): (r: Outcome)
    decreases fuel
    ensures r.Exited? ==> !m.InMap(r.last.pos) && visited <= r.visited && r.steps <= fuel
    ensures r.Exited? && r.steps > 0 ==> r.last.pos in r.visited
    ensures r.Exited? && r.steps == 0 ==> r.last == g && r.visited == visited
  {
    if !m.InMap(g.pos) then Exited(0, g, visited)
    else if fuel == 0 then OutOfFuel
    else
      var g' := Step(m, g);
      match Patrol(m, g', visited + {g'.pos}, fuel - 1)
      case Exited(k, last, v) => Exited(k + 1, last, v)
      case OutOfFuel => OutOfFuel
  }

  /** The guard leaves the map after exactly k passes. */
  predicate ExitsAfter(m: GuardMapInfo, g: Guard, k: nat) {
    && !m.InMap(Walk(m, g, k).pos)
    && forall i :: 0 <= i < k ==> m.InMap(Walk(m, g, i).pos)
  }

  lemma EnteredUnfold(m: GuardMapInfo, g: Guard, k: nat)
    ensures Entered(m, g, k + 1) == {Step(m, g).pos} + Entered(m, Step(m, g), k)
  {
    var g' := Step(m, g);
    forall p | p in Entered(m, g, k + 1)
      ensures p in {g'.pos} + Entered(m, g', k)
    {
      var i :| 1 <= i <= k + 1 && Walk(m, g, i).pos == p;
      if i > 1 {
        assert Walk(m, g, i) == Walk(m, g', i - 1);
      }
    }
    forall p | p in Entered(m, g', k)
      ensures p in Entered(m, g, k + 1)
    {
      var i :| 1 <= i <= k && Walk(m, g', i).pos == p;
      assert Walk(m, g, i + 1) == Walk(m, g', i);
    }
    assert Walk(m, g, 1) == g';
  }

  /** A run that ends does so exactly when the guard first stands off the map, and its
      visited set is the start set plus every position moved into along the way. */
  lemma {:induction false} PatrolExitsAtFirstExit(m: GuardMapInfo, g: Guard, visited: set<Point>, fuel: nat)
    requires Patrol(m, g, visited, fuel).Exited?
    ensures var r := Patrol(m, g, visited, fuel);
      && r.last == Walk(m, g, r.steps)
      && ExitsAfter(m, g, r.steps)
      && r.visited == visited + Entered(m, g, r.steps)
    decreases fuel
  {
    var r := Patrol(m, g, visited, fuel);
    if m.InMap(g.pos) {
      var g' := Step(m, g);
      PatrolExitsAtFirstExit(m, g', visited + {g'.pos}, fuel - 1);
      var k := r.steps - 1;
      EnteredUnfold(m, g, k);
      forall i | 0 <= i < r.steps
        ensures m.InMap(Walk(m, g, i).pos)
      {
        if i > 0 {
          assert Walk(m, g, i) == Walk(m, g', i - 1);
        }
      }
    } else {
      assert Entered(m, g, 0) == {};
    }
  }

  /** A guard that leaves after k > 0 passes starts on the map and, one pass on,
      leaves after k - 1 more. */
  lemma ExitsAfterStep(m: GuardMapInfo, g: Guard, k: nat)
    requires ExitsAfter(m, g, k) && k > 0
    ensures m.InMap(g.pos) && ExitsAfter(m, Step(m, g), k - 1)
  {
    var g' := Step(m, g);
    assert m.InMap(Walk(m, g, 0).pos);
    forall i | 0 <= i < k - 1
      ensures m.InMap(Walk(m, g', i).pos)
    {
      assert Walk(m, g, i + 1) == Walk(m, g', i);
    }
    assert Walk(m, g, k) == Walk(m, g', k - 1);
  }

  /** Conversely, when the guard first stands off the map after k passes and the fuel
      allows k passes, the run ends there. */
  lemma {:induction false} PatrolReachesFirstExit(m: GuardMapInfo, g: Guard, visited: set<Point>, fuel: nat, k: nat)
    requires ExitsAfter(m, g, k) && k <= fuel
    ensures Patrol(m, g, visited, fuel) == Exited(k, Walk(m, g, k), visited + Entered(m, g, k))
    decreases k
  {
    if k == 0 {
      assert Entered(m, g, 0) == {};
    } else {
      var g' := Step(m, g);
      ExitsAfterStep(m, g, k);
      PatrolReachesFirstExit(m, g', visited + {g'.pos}, fuel - 1, k - 1);
      EnteredUnfold(m, g, k - 1);
      assert Walk(m, g, k) == Walk(m, g', k - 1);
    }
  }

  /** The run from the map's starting state with an initially empty visited set. */
  function PatrolFromStart(m: GuardMapInfo, fuel: nat): Outcome {
    Patrol(m, Guard(m.start, m.startDir), {}, fuel)
  }

  /** The reported count: the size of the visited set minus one, for the final
      off-map position. None when the fuel runs out first. */
  function VisitedCount(m: GuardMapInfo, fuel: nat): Option<int> {
    match PatrolFromStart(m, fuel)
    case Exited(_, _, v) => Some(|v| - 1)
    case OutOfFuel => None
  }

  lemma SetMinusOne<T>(s: set<T>, x: T)
    requires x in s
    ensures |s - {x}| == |s| - 1
  {
  }

  /** When the guard starts on the map, the reported count is the number of distinct
      on-map cells it moved into; the starting cell is among them only when the guard
      came back to it. */
  lemma VisitedCountIsCellsEntered(m: GuardMapInfo, fuel: nat)
    requires m.InMap(m.start)
    requires PatrolFromStart(m, fuel).Exited?
    ensures var r := PatrolFromStart(m, fuel);
      && VisitedCount(m, fuel) == Some(|set p | p in r.visited && m.InMap(p)|)
      && (m.start in r.visited <==> m.start in Entered(m, Guard(m.start, m.startDir), r.steps))
  {
    var g := Guard(m.start, m.startDir);
    var r := PatrolFromStart(m, fuel);
    PatrolExitsAtFirstExit(m, g, {}, fuel);
    var last := r.last.pos;
    var inside := set p | p in r.visited && m.InMap(p);
    forall p | p in r.visited - {last}
      ensures p in inside
    {
      var i :| 1 <= i <= r.steps && Walk(m, g, i).pos == p;
    }
    assert inside == r.visited - {last};
    SetMinusOne(r.visited, last);
    assert r.visited == Entered(m, g, r.steps);
  }

  /** The count the puzzle asks for: distinct cells the guard stood on while on the
      map, the starting cell included. */
  function DistinctPositions(m: GuardMapInfo, fuel: nat): Option<int> {
    match PatrolFromStart(m, fuel)
    case Exited(_, _, v) => Some(|({m.start} + v) - {PatrolFromStart(m, fuel).last.pos}|)
    case OutOfFuel => None
  }

  /** The cells occupied before the exit are the start cell and every cell moved
      into, except the final off-map one. */
  lemma OccupiedCells(m: GuardMapInfo, g: Guard, k: nat)
    requires ExitsAfter(m, g, k) && k > 0
    ensures Occupied(m, g, k) == ({g.pos} + Entered(m, g, k)) - {Walk(m, g, k).pos}
  {
    var occupied := Occupied(m, g, k);
    var all := ({g.pos} + Entered(m, g, k)) - {Walk(m, g, k).pos};
    forall p | p in all
      ensures p in occupied
    {
      if p != g.pos {
        var i :| 1 <= i <= k && Walk(m, g, i).pos == p;
        assert i < k;
        assert p in occupied;
      } else {
        assert Walk(m, g, 0).pos == p;
        assert p in occupied;
      }
    }
    forall p | p in occupied
      ensures p in all
    {
      var i :| 0 <= i < k && Walk(m, g, i).pos == p;
      assert m.InMap(p);
      if i > 0 {
        assert p in Entered(m, g, k);
      } else {
        assert p == g.pos;
      }
    }
    assert occupied == all;
  }

  /** Adding a start element and dropping a different last element: the size goes
      down by one, and back up by one when the start element was new. */
  lemma AddStartDropLast<T>(s: set<T>, start: T, last: T)
    requires last in s && start != last
    ensures |({start} + s) - {last}| == |s| - 1 + (if start in s then 0 else 1)
  {
    SetMinusOne(s, last);
    if start !in s {
      assert ({start} + s) - {last} == (s - {last}) + {start};
    } else {
      assert ({start} + s) - {last} == s - {last};
    }
  }

  /** The corrected count is the number of distinct on-map cells occupied at any pass,
      the start included; it exceeds the reported count by one exactly when the guard
      never returns to its starting cell. */
  lemma DistinctPositionsCountsStart(m: GuardMapInfo, fuel: nat)
    requires m.InMap(m.start)
    requires PatrolFromStart(m, fuel).Exited?
    ensures var r := PatrolFromStart(m, fuel);
      var g := Guard(m.start, m.startDir);
      && DistinctPositions(m, fuel) == Some(|Occupied(m, g, r.steps)|)
      && DistinctPositions(m, fuel).value ==
           VisitedCount(m, fuel).value + (if m.start in r.visited then 0 else 1)
  {
    var g := Guard(m.start, m.startDir);
    var r := PatrolFromStart(m, fuel);
    PatrolExitsAtFirstExit(m, g, {}, fuel);
    assert r.visited == Entered(m, g, r.steps);
    OccupiedCells(m, g, r.steps);
    AddStartDropLast(r.visited, m.start, r.last.pos);
  }

  /** Four right turns give back the original heading. */
  lemma RotateFourTimes(d: Direction)
    ensures d.RotateRight().RotateRight().RotateRight().RotateRight() == d
  {
  }

  /** Two right turns reverse the movement vector. */
  lemma TurnAroundReversesMovement(d: Direction)
    ensures d.RotateRight().RotateRight().Movement() == (-d.Movement().0, -d.Movement().1)
  {
  }

  /** A guard is boxed in when both the cell ahead and the cell to its right are
      obstructed: the only situation in which a step ends on an obstruction. */
  predicate BoxedIn(m: GuardMapInfo, g: Guard) {
    Ahead(g.pos, g.dir) in m.obstructions && Ahead(g.pos, g.dir.RotateRight()) in m.obstructions
  }

  /** If no pass of the first k started boxed in, none of the positions moved into is
      an obstruction. */
  lemma EnteredAvoidsObstructions(m: GuardMapInfo, g: Guard, k: nat)
    requires forall i :: 0 <= i < k ==> !BoxedIn(m, Walk(m, g, i))
    ensures forall p :: p in Entered(m, g, k) ==> p !in m.obstructions
  {
    forall p | p in Entered(m, g, k)
      ensures p !in m.obstructions
    {
      var i :| 1 <= i <= k && Walk(m, g, i).pos == p;
      WalkLast(m, g, i - 1);
      assert !BoxedIn(m, Walk(m, g, i - 1));
    }
  }

  /** The last pass of a walk is a step from the walk one shorter. */
  lemma {:induction false} WalkLast(m: GuardMapInfo, g: Guard, n: nat)
    ensures Walk(m, g, n + 1) == Step(m, Walk(m, g, n))
    decreases n
  {
    if n > 0 {
      WalkLast(m, Step(m, g), n - 1);
    }
  }

  /** On a map without obstructions the guard keeps its heading and after n passes
      stands n unit steps from where it began. */
  lemma {:induction false} WalkWithoutObstructions(m: GuardMapInfo, g: Guard, n: nat)
    requires |m.obstructions| == 0
    ensures Walk(m, g, n) ==
      Guard(g.pos.AddDelta(n * g.dir.Movement().0, n * g.dir.Movement().1), g.dir)
    decreases n
  {
    if n > 0 {
      var (dx, dy) := g.dir.Movement();
      WalkWithoutObstructions(m, Step(m, g), n - 1);
      assert (n - 1) * dx + dx == n * dx && (n - 1) * dy + dy == n * dy;
    }
  }

  lemma {:induction false} EnteredNorthLine(m: GuardMapInfo, g: Guard, k: nat)
    requires |m.obstructions| == 0 && g.dir == North
    ensures forall p :: p in Entered(m, g, k) ==> p.x == g.pos.x && g.pos.y - k <= p.y < g.pos.y
    ensures |Entered(m, g, k)| == k
    decreases k
  {
    forall i | 1 <= i <= k
      ensures Walk(m, g, i).pos == Point(g.pos.x, g.pos.y - i)
    {
      WalkWithoutObstructions(m, g, i);
    }
    if k > 0 {
      EnteredNorthLine(m, g, k - 1);
      WalkWithoutObstructions(m, g, k);
      assert Entered(m, g, k) == Entered(m, g, k - 1) + {Point(g.pos.x, g.pos.y - k)};
      assert Point(g.pos.x, g.pos.y - k) !in Entered(m, g, k - 1);
    }
  }

  /** Facing north on an unobstructed map, the guard first stands off the map after
      one pass more than the rows above it. */
  lemma NorthExit(m: GuardMapInfo, g: Guard)
    requires |m.obstructions| == 0 && g.dir == North && m.InMap(g.pos)
    ensures ExitsAfter(m, g, g.pos.y + 1)
  {
    forall i | 0 <= i <= g.pos.y + 1
      ensures Walk(m, g, i).pos == Point(g.pos.x, g.pos.y - i)
    {
      WalkWithoutObstructions(m, g, i);
    }
  }

  /** The run from the start, facing north on an unobstructed map, ends after one
      pass more than the rows above the start, having entered only cells above it. */
  lemma NorthRun(m: GuardMapInfo, fuel: nat)
    requires |m.obstructions| == 0 && m.startDir == North && m.InMap(m.start)
    requires fuel > m.start.y
    ensures var k := m.start.y + 1;
      var g := Guard(m.start, m.startDir);
      && PatrolFromStart(m, fuel) == Exited(k, Walk(m, g, k), Entered(m, g, k))
      && |Entered(m, g, k)| == k
      && m.start !in Entered(m, g, k)
  {
    var g := Guard(m.start, m.startDir);
    var k := m.start.y + 1;
    NorthExit(m, g);
    PatrolReachesFirstExit(m, g, {}, fuel, k);
    assert {} + Entered(m, g, k) == Entered(m, g, k);
    EnteredNorthLine(m, g, k);
  }

  /** A guard starting on an unobstructed map facing north walks straight off the top
      edge; the reported count is the number of cells above the start, since the
      starting cell itself is never re-entered. */
  lemma UnobstructedNorthCount(m: GuardMapInfo, fuel: nat)
    requires |m.obstructions| == 0 && m.startDir == North && m.InMap(m.start)
    requires fuel > m.start.y
    ensures VisitedCount(m, fuel) == Some(m.start.y)
    ensures DistinctPositions(m, fuel) == Some(m.start.y + 1)
  {
    NorthRun(m, fuel);
    DistinctPositionsCountsStart(m, fuel);
  }

  /** A guard on the edge facing outward with nothing in its way leaves on the
      first pass: the reported count is 0, although it stood on one cell. */
  lemma EdgeExitCount(m: GuardMapInfo, fuel: nat)
    requires m.InMap(m.start) && fuel > 0
    requires Ahead(m.start, m.startDir) !in m.obstructions
    requires !m.InMap(Ahead(m.start, m.startDir))
    ensures VisitedCount(m, fuel) == Some(0)
    ensures DistinctPositions(m, fuel) == Some(1)
  {
    var g := Guard(m.start, m.startDir);
    assert Walk(m, g, 1) == Walk(m, Step(m, g), 0);
    assert ExitsAfter(m, g, 1);
    PatrolReachesFirstExit(m, g, {}, fuel, 1);
    assert Entered(m, g, 1) == {Ahead(m.start, m.startDir)};
    DistinctPositionsCountsStart(m, fuel);
  }

  // ---------------------------------------------------------------------------
  // Reading the map

  datatype ParseError = MissingGuard

  /** The '#' cells of one row at height y, left to right. */
  function RowObstructions(row: string, y: int): (r: seq<Point>)
    ensures forall p :: p in r <==> p.y == y && 0 <= p.x < |row| && row[p.x] == '#'
    decreases |row|
  {
    if |row| == 0 then []
    else
      RowObstructions(row[..|row| - 1], y)
      + (if row[|row| - 1] == '#' then [Point(|row| - 1, y)] else [])
  }

  /** The '#' cells of the whole grid, row by row. */
  function GridObstructions(rows: seq<string>): (r: seq<Point>)
    ensures forall p :: p in r <==>
      0 <= p.y < |rows| && 0 <= p.x < |rows[p.y]| && rows[p.y][p.x] == '#'
    decreases |rows|
  {
    if |rows| == 0 then []
    else GridObstructions(rows[..|rows| - 1]) + RowObstructions(rows[|rows| - 1], |rows| - 1)
  }

  /** The column of the last '^' in a row. */
  function LastCaret(row: string): (r: Option<nat>)
    ensures r.None? <==> forall x :: 0 <= x < |row| ==> row[x] != '^'
    ensures r.Some? ==>
      && r.value < |row| && row[r.value] == '^'
      && forall x :: r.value < x < |row| ==> row[x] != '^'
    decreases |row|
  {
    if |row| == 0 then None
    else if row[|row| - 1] == '^' then Some(|row| - 1)
    else LastCaret(row[..|row| - 1])
  }

  /** The cell of the last '^' in reading order: a later marker overwrites an
      earlier one in the source's scan. */
  function GuardStart(rows: seq<string>): (r: Option<Point>)
    ensures r.None? <==>
      forall y, x :: 0 <= y < |rows| && 0 <= x < |rows[y]| ==> rows[y][x] != '^'
    ensures r.Some? ==>
      && 0 <= r.value.y < |rows| && 0 <= r.value.x < |rows[r.value.y]|
      && rows[r.value.y][r.value.x] == '^'
      && forall y, x ::
           (r.value.y <= y < |rows| && 0 <= x < |rows[y]| && (y > r.value.y || x > r.value.x))
           ==> rows[y][x] != '^'
    decreases |rows|
  {
    if |rows| == 0 then None
    else
      match LastCaret(rows[|rows| - 1])
      case Some(x) => Some(Point(x, |rows| - 1))
      case None => GuardStart(rows[..|rows| - 1])
  }

  /** Builds the map from the lines of the input: '#' marks an obstruction, '^' the
      guard, which always starts facing north; the width is the length of the first
      line and the height the number of lines. Without a '^' the map is rejected. */
  function Parse(rows: seq<string>): (r: Result<GuardMapInfo, ParseError>)
    ensures r.Err? <==> forall y, x :: 0 <= y < |rows| && 0 <= x < |rows[y]| ==> rows[y][x] != '^'
    ensures r.Ok? ==>
      && |rows| > 0
      && r.value.width == |rows[0]| && r.value.height == |rows|
      && r.value.startDir == North
      && 0 <= r.value.start.y < |rows| && 0 <= r.value.start.x < |rows[r.value.start.y]|
      && rows[r.value.start.y][r.value.start.x] == '^'
      && (forall y, x ::
            (r.value.start.y <= y < |rows| && 0 <= x < |rows[y]|
             && (y > r.value.start.y || x > r.value.start.x))
            ==> rows[y][x] != '^')
      && forall p :: p in r.value.obstructions <==>
           0 <= p.y < |rows| && 0 <= p.x < |rows[p.y]| && rows[p.y][p.x] == '#'
  {
    match GuardStart(rows)
    case None => Err(MissingGuard)
    case Some(p) => Ok(GuardMapInfo(|rows[0]|, |rows|, GridObstructions(rows), p, North))
  }
}

module GuardPatrolScenarios {
  import opened Wrappers
  import opened GuardPatrol

  const CrossRows: seq<string> := [".....", "..#..", "..^..", "..#..", "....."]

  /** The facts about the parsed cross-shaped map that its patrol depends on. */
  predicate CrossShaped(m: GuardMapInfo) {
    && m.width == 5 && m.height == 5
    && m.start == Point(2, 2) && m.startDir == North
    && Point(2, 1) in m.obstructions
    && Point(3, 2) !in m.obstructions && Point(4, 2) !in m.obstructions
    && Point(5, 2) !in m.obstructions
  }

  lemma CrossCaretOnlyAtCentre(y: int, x: int)
    requires 0 <= y < |CrossRows| && 0 <= x < |CrossRows[y]| && CrossRows[y][x] == '^'
    ensures y == 2 && x == 2
  {
  }

  lemma CrossParse()
    ensures Parse(CrossRows).Ok? && CrossShaped(Parse(CrossRows).value)
  {
    var rows := CrossRows;
    assert rows[2][2] == '^';
    var m := Parse(rows).value;
    CrossCaretOnlyAtCentre(m.start.y, m.start.x);
    assert rows[1][2] == '#' && rows[2][3] != '#' && rows[2][4] != '#';
  }

  /** The guard at (2,2) faces an obstruction at (2,1), turns east and walks off the
      east edge through (3,2) and (4,2). The reported count is 2 because the starting
      cell is never added to the visited set; the puzzle's count of distinct cells
      is 3. */
  lemma CrossScenario()
    ensures Parse(CrossRows).Ok?
    ensures VisitedCount(Parse(CrossRows).value, 3) == Some(2)
    ensures DistinctPositions(Parse(CrossRows).value, 3) == Some(3)
  {
    CrossParse();
    var m := Parse(CrossRows).value;
    CrossCount(m);
  }

  /** The three passes of the guard on the cross-shaped map. */
  lemma CrossWalk(m: GuardMapInfo)
    requires CrossShaped(m)
    ensures var g := Guard(m.start, North);
      && Walk(m, g, 1) == Guard(Point(3, 2), East)
      && Walk(m, g, 2) == Guard(Point(4, 2), East)
      && Walk(m, g, 3) == Guard(Point(5, 2), East)
      && ExitsAfter(m, g, 3)
  {
    var g := Guard(m.start, North);
    assert Walk(m, g, 1) == Guard(Point(3, 2), East);
    assert Walk(m, g, 2) == Guard(Point(4, 2), East) by {
      WalkLast(m, g, 1);
    }
    assert Walk(m, g, 3) == Guard(Point(5, 2), East) by {
      WalkLast(m, g, 2);
    }
  }

  lemma CrossCount(m: GuardMapInfo)
    requires CrossShaped(m)
    ensures VisitedCount(m, 3) == Some(2)
    ensures DistinctPositions(m, 3) == Some(3)
  {
    var g := Guard(m.start, North);
    CrossWalk(m);
    PatrolReachesFirstExit(m, g, {}, 3, 3);
    assert Entered(m, g, 3) == {Point(3, 2), Point(4, 2), Point(5, 2)};
    assert Walk(m, g, 0).pos == Point(2, 2);
    assert Occupied(m, g, 3) == {Point(2, 2), Point(3, 2), Point(4, 2)};
    DistinctPositionsCountsStart(m, 3);
  }

  /** A guard with obstructions ahead and to its right turns once and steps onto the
      obstruction to its right: the single-check step rule does not keep turning. */
  lemma BoxedGuardStepsOntoObstruction()
    ensures var m := GuardMapInfo(3, 3, [Point(1, 0), Point(2, 1)], Point(1, 1), North);
      Step(m, Guard(m.start, m.startDir)) == Guard(Point(2, 1), East)
      && BoxedIn(m, Guard(m.start, m.startDir))
  {
  }
}
