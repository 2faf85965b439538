/** The rules of the game on values: what one movement tick, a growth, the
    self-collision test and the dot placement do to a snake given as a
    sequence of cells (head first). The array-based objects in SnakeModel and
    GameSession are proved against these functions. */
module Rules {
  import opened Grid

  datatype Option<T> = None | Some(value: T)

  /** A snake as a value: its segments, head first, and its direction code. */
  datatype Pose = Pose(body: seq<Cell>, direction: int)

  /** Number of segments a new snake has. */
  const SnakeLength: nat := 1
  /** Seconds per movement tick of a new snake. */
  const InitialSpeed: real := 0.2
  /** Factor applied to the tick interval at every speed-up. */
  const SpeedupFactor: real := 0.8
  /** Seconds between two speed-ups. */
  const SpeedupTime: int := 5

  // ---------------------------------------------------------------------
  // Initial snake
  // ---------------------------------------------------------------------

  /** Segment i of a new snake sits i cells left of the centre of the board. */
  function InitialBody(): seq<Cell> {
    seq(SnakeLength, i => Cell(RowCells / 2 - i, ColCells / 2))
  }

  /** A new snake is the single cell (16, 10), inside the board. */
  lemma InitialBodyIsCentre()
    ensures InitialBody() == [Cell(16, 10)]
    ensures InGrid(InitialBody()[0])
  {
  }

  // ---------------------------------------------------------------------
  // Movement
  // ---------------------------------------------------------------------

  /** The body after the shift loop: each segment takes its predecessor's
      cell, the head stays put, the old tail is overwritten. */
  function Shifted(s: seq<Cell>): (r: seq<Cell>)
    requires |s| >= 1
    ensures |r| == |s| && r[0] == s[0]
    ensures forall i :: 1 <= i < |s| ==> r[i] == s[i - 1]
  {
    [s[0]] + s[..|s| - 1]
  }

  /** The turn query: `d` is a direction and no segment other than the head
      occupies the cell one step from the head in direction `d`. */
  predicate TurnAllowed(s: seq<Cell>, d: int): (r: bool)
    requires |s| >= 1
    ensures r <==> IsDirection(d) && Step(s[0], d) !in s[1..]
  {
    IsDirection(d) && forall i :: 1 <= i < |s| ==> s[i] != Step(s[0], d)
  }

  /** The head step of a tick, applied to the already shifted body `s`:
      straight on, or along the border when the head is on the edge it is
      heading for. */
  function HeadMove(s: seq<Cell>, dir: int): (r: Pose)
    requires |s| >= 1
    ensures |r.body| == |s| && r.body[1..] == s[1..]
    ensures IsDirection(dir) ==> IsDirection(r.direction) && r.body[0] == Step(s[0], r.direction)
    ensures !IsDirection(dir) ==> r == Pose(s, dir)
  {
    var h := s[0];
    if dir == Right then
      if h.x == RowCells - 1 then
        if h.y < ColCells - 1 && TurnAllowed(s, Down) then Pose(s[0 := Cell(h.x, h.y + 1)], Down)
        else Pose(s[0 := Cell(h.x, h.y - 1)], Up)
      else Pose(s[0 := Cell(h.x + 1, h.y)], Right)
    else if dir == Left then
      if h.x == 0 then
        if h.y > 0 && TurnAllowed(s, Up) then Pose(s[0 := Cell(h.x, h.y - 1)], Up)
        else Pose(s[0 := Cell(h.x, h.y + 1)], Down)
      else Pose(s[0 := Cell(h.x - 1, h.y)], Left)
    else if dir == Up then
      if h.y == 0 then
        if h.x < RowCells - 1 && TurnAllowed(s, Right) then Pose(s[0 := Cell(h.x + 1, h.y)], Right)
        else Pose(s[0 := Cell(h.x - 1, h.y)], Left)
      else Pose(s[0 := Cell(h.x, h.y - 1)], Up)
    else if dir == Down then
      if h.y == ColCells - 1 then
        if h.x > 0 && TurnAllowed(s, Left) then Pose(s[0 := Cell(h.x - 1, h.y)], Left)
        else Pose(s[0 := Cell(h.x + 1, h.y)], Right)
      else Pose(s[0 := Cell(h.x, h.y + 1)], Down)
    else
      Pose(s, dir)
  }

  /** One movement tick: shift the body, then move the head. */
  function Update(p: Pose): (r: Pose)
    requires |p.body| >= 1
    ensures |r.body| == |p.body|
    ensures IsDirection(p.direction) ==> IsDirection(r.direction) && r.body[0] == Step(p.body[0], r.direction)
  {
    HeadMove(Shifted(p.body), p.direction)
  }

  /** A tick keeps the length and moves every segment but the head onto
      its predecessor's old cell. */
  lemma UpdateShiftsBody(p: Pose)
    requires |p.body| >= 1
    ensures |Update(p).body| == |p.body|
    ensures forall i :: 1 <= i < |p.body| ==> Update(p).body[i] == p.body[i - 1]
  {
  }

  /** Away from the edge it is heading for, the head moves one cell straight
      on and the direction does not change. */
  lemma UpdateOffEdge(p: Pose)
    requires |p.body| >= 1 && IsDirection(p.direction)
    requires !AtEdge(p.body[0], p.direction)
    ensures Update(p).direction == p.direction
    ensures Update(p).body[0] == Step(p.body[0], p.direction)
  {
  }

  /** On the edge it is heading for, the head turns clockwise when there is
      room that way and the turn query allows it, and counter-clockwise
      otherwise; either way it moves one cell in its new direction. */
  lemma UpdateAtEdge(p: Pose)
    requires |p.body| >= 1 && IsDirection(p.direction)
    requires AtEdge(p.body[0], p.direction)
    ensures var h, cw := p.body[0], Clockwise(p.direction);
            var d := if HasRoom(h, cw) && TurnAllowed(Shifted(p.body), cw) then cw else Opposite(cw);
            Update(p).direction == d && Update(p).body[0] == Step(h, d)
  {
  }

  /** With a code that is not a direction only the shift happens. */
  lemma UpdateNoDirection(p: Pose)
    requires |p.body| >= 1 && !IsDirection(p.direction)
    ensures Update(p) == Pose(Shifted(p.body), p.direction)
  {
  }

  /** A tick keeps the direction code a direction. */
  lemma UpdateKeepsDirection(p: Pose)
    requires |p.body| >= 1 && IsDirection(p.direction)
    ensures IsDirection(Update(p).direction)
  {
  }

  /** Asked on the shifted body, the turn query is blocked only by a segment
      that was neither the head nor the tail before the shift: the old tail
      has moved away. */
  lemma {:induction false} ShiftedTurnAllowed(b: seq<Cell>, d: int)
    requires |b| >= 1
    ensures TurnAllowed(Shifted(b), d) <==>
            IsDirection(d) && forall j :: 1 <= j < |b| - 1 ==> b[j] != Step(b[0], d)
  {
    var s := Shifted(b);
    if IsDirection(d) {
      if forall j :: 1 <= j < |b| - 1 ==> b[j] != Step(b[0], d) {
        forall i | 1 <= i < |s| ensures s[i] != Step(s[0], d) {
          if i >= 2 {
            assert s[i] == b[i - 1];
          } else {
            assert s[i] == b[0];
          }
        }
      }
      if TurnAllowed(s, d) {
        forall j | 1 <= j < |b| - 1 ensures b[j] != Step(b[0], d) {
          assert s[j + 1] == b[j];
        }
      }
    }
  }

  /** A head inside the board stays inside after a tick unless it is heading
      for an edge, has no room counter-clockwise (a corner) and the clockwise
      turn is refused by the turn query. */
  lemma HeadInGridIff(p: Pose)
    requires |p.body| >= 1 && IsDirection(p.direction) && InGrid(p.body[0])
    ensures var h, d := p.body[0], p.direction;
            InGrid(Update(p).body[0]) <==>
            !(AtEdge(h, d) && !HasRoom(h, CounterClockwise(d)) && !TurnAllowed(Shifted(p.body), Clockwise(d)))
  {
    var h, d := p.body[0], p.direction;
    if AtEdge(h, d) {
      UpdateAtEdge(p);
      RoomIsNotEdge(h, Clockwise(d));
      RoomIsNotEdge(h, CounterClockwise(d));
    } else {
      UpdateOffEdge(p);
      RoomIsNotEdge(h, d);
    }
  }

  /** The head can leave the board: a snake at the top-right corner moving
      right, with a segment below its head, turns up to row -1. */
  lemma HeadLeavesBoard()
    ensures var p := Pose([Cell(31, 0), Cell(30, 0), Cell(30, 1), Cell(31, 1), Cell(31, 2)], Right);
            Update(p) == Pose([Cell(31, -1), Cell(31, 0), Cell(30, 0), Cell(30, 1), Cell(31, 1)], Up) &&
            !InGrid(Update(p).body[0])
  {
    var p := Pose([Cell(31, 0), Cell(30, 0), Cell(30, 1), Cell(31, 1), Cell(31, 2)], Right);
    var s := Shifted(p.body);
    assert s == [Cell(31, 0), Cell(31, 0), Cell(30, 0), Cell(30, 1), Cell(31, 1)];
    assert s[4] == Step(s[0], Down);
  }

  // ---------------------------------------------------------------------
  // Shape of the body
  // ---------------------------------------------------------------------

  /** Consecutive segments are on the same or on neighbouring cells. */
  predicate Connected(s: seq<Cell>) {
    forall i :: 0 <= i < |s| - 1 ==> Distance(s[i], s[i + 1]) <= 1
  }

  /** A tick keeps the body connected: the new head is a neighbour of the old
      head, which is where the second segment now is. */
  lemma {:induction false} UpdateKeepsConnected(p: Pose)
    requires |p.body| >= 1 && Connected(p.body)
    ensures Connected(Update(p).body)
  {
    var b := p.body;
    var r := Update(p).body;
    UpdateShiftsBody(p);
    if IsDirection(p.direction) {
      if AtEdge(b[0], p.direction) { UpdateAtEdge(p); } else { UpdateOffEdge(p); }
      assert Distance(r[0], b[0]) <= 1;
    } else {
      UpdateNoDirection(p);
    }
    forall i | 0 <= i < |r| - 1 ensures Distance(r[i], r[i + 1]) <= 1 {
      if i >= 1 {
        assert r[i] == b[i - 1] && r[i + 1] == b[i];
      }
    }
  }

  // ---------------------------------------------------------------------
  // Growth
  // ---------------------------------------------------------------------

  /** The body after eating: one more segment, a copy of the last one. */
  function Grown(s: seq<Cell>): (r: seq<Cell>)
    requires |s| >= 1
    ensures |r| == |s| + 1 && r[..|s|] == s && r[|s|] == s[|s| - 1]
  {
    s + [s[|s| - 1]]
  }

  lemma GrownKeepsConnected(s: seq<Cell>)
    requires |s| >= 1 && Connected(s)
    ensures Connected(Grown(s))
  {
  }

  /** The tick after a growth leaves the copied tail on its cell: apart from
      the head, the body is what the tick makes of the un-grown body with the
      old tail appended. */
  lemma {:induction false} GrowThenUpdate(p: Pose)
    requires |p.body| >= 1
    ensures var g := Update(Pose(Grown(p.body), p.direction)).body;
            var u := Update(p).body;
            g[1..] == u[1..] + [p.body[|p.body| - 1]]
  {
    var b := p.body;
    var gp := Pose(Grown(b), p.direction);
    var g := Update(gp).body;
    var u := Update(p).body;
    UpdateShiftsBody(p);
    UpdateShiftsBody(gp);
    assert |g[1..]| == |u[1..] + [b[|b| - 1]]|;
    forall i | 0 <= i < |g[1..]| ensures g[1..][i] == (u[1..] + [b[|b| - 1]])[i] {
      assert g[1..][i] == g[i + 1] == Grown(b)[i];
    }
  }

  // ---------------------------------------------------------------------
  // Self-collision
  // ---------------------------------------------------------------------

  /** The head is on the cell of a segment with index 2 or more. */
  predicate SelfCollides(s: seq<Cell>): (r: bool)
    requires |s| >= 1
    ensures r <==> |s| >= 3 && s[0] in s[2..]
  {
    exists i :: 2 <= i < |s| && s[i] == s[0]
  }

  /** A snake of one or two segments never collides with itself. */
  lemma ShortSnakeNeverCollides(s: seq<Cell>)
    requires 1 <= |s| <= 2
    ensures !SelfCollides(s)
  {
  }

  /** Four segments on one cell collide; the first two on one cell do not. */
  lemma StackedSegments()
    ensures SelfCollides([Cell(5, 5), Cell(5, 5), Cell(5, 5), Cell(5, 5)])
    ensures !SelfCollides([Cell(5, 5), Cell(5, 5)])
  {
    assert [Cell(5, 5), Cell(5, 5), Cell(5, 5), Cell(5, 5)][2] == Cell(5, 5);
  }

  /** After a tick the snake collides with itself exactly when the new head
      landed on a segment of the old body other than its head and its tail. */
  lemma {:induction false} UpdateCollidesIff(p: Pose)
    requires |p.body| >= 1
    ensures var b, h := p.body, Update(p).body[0];
            SelfCollides(Update(p).body) <==> exists j :: 1 <= j < |b| - 1 && b[j] == h
  {
    var b, r := p.body, Update(p).body;
    UpdateShiftsBody(p);
    if SelfCollides(r) {
      var i :| 2 <= i < |r| && r[i] == r[0];
      assert b[i - 1] == r[0];
    }
    if exists j :: 1 <= j < |b| - 1 && b[j] == r[0] {
      var j :| 1 <= j < |b| - 1 && b[j] == r[0];
      assert r[j + 1] == r[0];
    }
  }

  // ---------------------------------------------------------------------
  // Dot placement
  // ---------------------------------------------------------------------

  /** The k-th candidate cell of a placement: the (2k)-th and (2k+1)-th raw
      random numbers reduced modulo the board size. */
  function DrawCell(draws: seq<nat>, k: nat): (c: Cell)
    requires 2 * k + 1 < |draws|
    ensures InGrid(c)
  {
    Cell(draws[2 * k] % RowCells, draws[2 * k + 1] % ColCells)
  }

  /** Some candidate of the random stream is off the body, so that the
      placement loop finishes. */
  ghost predicate HasFreeDraw(draws: seq<nat>, body: seq<Cell>) {
    exists k: nat :: 2 * k + 1 < |draws| && DrawCell(draws, k) !in body
  }

  /** The cell the placement loop settles on: the first candidate that is
      off the body, if any. */
  function FirstFree(draws: seq<nat>, body: seq<Cell>): (r: Option<Cell>)
    ensures r.Some? ==> InGrid(r.value) && r.value !in body
    decreases |draws|
  {
    if |draws| < 2 then None
    else
      var c := DrawCell(draws, 0);
      if c !in body then Some(c) else FirstFree(draws[2..], body)
  }

  /** Dropping the first candidate renumbers the rest. */
  lemma DrawCellTail(draws: seq<nat>, k: nat)
    requires 2 * k + 3 < |draws|
    ensures DrawCell(draws[2..], k) == DrawCell(draws, k + 1)
  {
  }

  /** The placement settles exactly when some candidate is free, and then
      on the first free candidate. */
  lemma {:induction false} FirstFreeIsFirst(draws: seq<nat>, body: seq<Cell>)
    ensures FirstFree(draws, body).Some? <==> HasFreeDraw(draws, body)
    ensures FirstFree(draws, body).Some? ==>
            exists k: nat :: 2 * k + 1 < |draws| && FirstFree(draws, body).value == DrawCell(draws, k) &&
                             forall j: nat :: j < k ==> DrawCell(draws, j) in body
    decreases |draws|
  {
    if |draws| >= 2 && DrawCell(draws, 0) in body {
      var t := draws[2..];
      FirstFreeIsFirst(t, body);
      if HasFreeDraw(draws, body) {
        var k: nat :| 2 * k + 1 < |draws| && DrawCell(draws, k) !in body;
        assert k != 0;
        DrawCellTail(draws, k - 1);
        assert HasFreeDraw(t, body);
      }
      if HasFreeDraw(t, body) {
        var k: nat :| 2 * k + 1 < |t| && DrawCell(t, k) !in body;
        DrawCellTail(draws, k);
        assert DrawCell(draws, k + 1) !in body;
      }
      if FirstFree(t, body).Some? {
        var k: nat :| 2 * k + 1 < |t| && FirstFree(t, body).value == DrawCell(t, k) &&
                      forall j: nat :: j < k ==> DrawCell(t, j) in body;
        DrawCellTail(draws, k);
        forall j: nat | j < k + 1 ensures DrawCell(draws, j) in body {
          if j > 0 { DrawCellTail(draws, j - 1); }
        }
        assert FirstFree(draws, body).value == DrawCell(draws, k + 1);
      }
    } else if |draws| >= 2 {
      assert FirstFree(draws, body).value == DrawCell(draws, 0);
    }
  }

  /** Number of a cell in row-major order. */
  function CellIndex(c: Cell): int {
    c.y * RowCells + c.x
  }

  /** A set of fewer than n numbers misses one of 0 .. n-1. */
  lemma {:induction false} MissingIndex(s: set<int>, n: nat)
    requires |s| < n
    ensures exists i :: 0 <= i < n && i !in s
  {
    if n - 1 in s {
      MissingIndex(s - {n - 1}, n - 1);
      var i :| 0 <= i < n - 1 && i !in s - {n - 1};
      assert i !in s;
    }
  }

  /** A body has at most as many distinct cell numbers as segments. */
  lemma {:induction false} IndexSetSize(body: seq<Cell>)
    ensures |set c | c in body :: CellIndex(c)| <= |body|
  {
    if |body| > 0 {
      var front := body[..|body| - 1];
      IndexSetSize(front);
      assert (set c | c in body :: CellIndex(c)) ==
             (set c | c in front :: CellIndex(c)) + {CellIndex(body[|body| - 1])} by {
        assert body == front + [body[|body| - 1]];
      }
    }
  }

  /** A body shorter than the buffer leaves some cell of the board free, so
      a uniform random stream eventually yields a free candidate. */
  lemma FreeCellExists(body: seq<Cell>)
    requires |body| < Capacity
    ensures exists c :: InGrid(c) && c !in body
  {
    var used := set c | c in body :: CellIndex(c);
    IndexSetSize(body);
    MissingIndex(used, Capacity);
    var i :| 0 <= i < Capacity && i !in used;
    var c := Cell(i % RowCells, i / RowCells);
    assert CellIndex(c) == i;
    assert InGrid(c);
    assert c !in body;
  }

  /** The opening of a game: the first tick takes the new snake to (17, 10);
      a dot there is eaten, and the next dot only has to avoid the one-segment
      body before the growth, so it may be the cell (16, 10) just left. */
  lemma FirstMeal()
    ensures Update(Pose(InitialBody(), Right)) == Pose([Cell(17, 10)], Right)
    ensures Grown([Cell(17, 10)]) == [Cell(17, 10), Cell(17, 10)]
    ensures FirstFree([16, 10], [Cell(17, 10)]) == Some(Cell(16, 10))
  {
    assert DrawCell([16, 10], 0) == Cell(16, 10);
  }

  // ---------------------------------------------------------------------
  // Speed
  // ---------------------------------------------------------------------

  function Pow(b: real, n: nat): (r: real)
    ensures 0.0 < b ==> 0.0 < r
  {
    if n == 0 then 1.0 else b * Pow(b, n - 1)
  }

  /** Tick interval after n speed-ups. */
  function SpeedAfter(n: nat): real {
    InitialSpeed * Pow(SpeedupFactor, n)
  }

  /** Every speed-up multiplies the tick interval by 0.8; the interval stays
      positive and strictly decreases. */
  lemma {:induction false} SpeedUpShrinks(n: nat)
    ensures SpeedAfter(n + 1) == SpeedAfter(n) * SpeedupFactor
    ensures 0.0 < SpeedAfter(n + 1) < SpeedAfter(n)
  {
    var q := Pow(SpeedupFactor, n);
    assert Pow(SpeedupFactor, n + 1) == SpeedupFactor * q;
    assert 0.0 < q;
    assert SpeedAfter(n + 1) == InitialSpeed * (SpeedupFactor * q);
    assert InitialSpeed * (SpeedupFactor * q) == (InitialSpeed * q) * SpeedupFactor;
  }
}
