/** The snake object: a fixed buffer of segments, of which the first
    `length` are the body (head at index 0), the direction code and the tick
    interval. Every operation is proved against the value-level rules. */
module SnakeModel {
  import opened Grid
  import opened Rules

  class Snake {
    /** Segment buffer, allocated once with one slot per board cell. */
    var body: array<Cell>
    var length: nat
    var direction: int
    /** Seconds between two movement ticks. */
    var speed: real
    /** How many speed-ups this snake has had. */
    ghost var speedUps: nat

    /** The buffer has room for every cell, the body is non-empty, connected
        and inside the buffer, the direction is one of the four, and the
        speed is the initial one after `speedUps` speed-ups. */
    ghost predicate Valid()
      reads this, body
    {
      InBuffer() && body.Length == Capacity &&
      IsDirection(direction) && Connected(body[..length]) &&
      speed == SpeedAfter(speedUps)
    }

    /** The body is non-empty and fits the buffer. */
    ghost predicate InBuffer()
      reads this
    {
      1 <= length <= body.Length
    }

    /** The segments in use, head first. */
    ghost function Body(): (s: seq<Cell>)
      reads this, body
      requires InBuffer()
      ensures |s| == length >= 1
    {
      body[..length]
    }

    /** The snake as a value, as the rules see it. */
    ghost function State(): Pose
      reads this, body
      requires InBuffer()
    {
      Pose(Body(), direction)
    }

    /** A new snake: one segment in the centre of the board, heading right,
        at the initial speed. */
    constructor ()
      ensures Valid() && fresh(body)
      ensures State() == Pose(InitialBody(), Right)
      ensures speed == InitialSpeed && speedUps == 0
    {
      var buffer := new Cell[Capacity];
      var n := SnakeLength;
      var i := 0;
      while i < n
        invariant 0 <= i <= n
        invariant forall k :: 0 <= k < i ==> buffer[k] == InitialBody()[k]
      {
        buffer[i] := Cell(RowCells / 2 - i, ColCells / 2);
        i := i + 1;
      }
      assert buffer[..n] == InitialBody();
      body := buffer;
      length := n;
      direction := Right;
      speed := InitialSpeed;
      speedUps := 0;
    }

    /** The turn query: false for a code that is not a direction and when a
        segment other than the head is on the cell one step from the head in
        direction `d`. Each direction compares the segments with the head's
        neighbour on that side; `Step` gives that neighbour. */
    method CanTurn(d: int) returns (ok: bool)
      requires InBuffer()
      ensures ok == TurnAllowed(Body(), d)
      ensures ok <==> IsDirection(d) && Step(body[0], d) !in body[1..length]
    {
      if !IsDirection(d) {
        return false;
      }
      var target := Step(body[0], d);
      var i := 1;
      while i < length
        invariant 1 <= i <= length
        invariant forall k :: 1 <= k < i ==> body[k] != target
      {
        if body[i] == target {
          return false;
        }
        i := i + 1;
      }
      return true;
    }

    /** Growth: the last segment is copied into the next free slot. The
        buffer must have that slot. */
    method Grow()
      requires Valid() && length < body.Length
      modifies this`length, body
      ensures Valid()
      ensures Body() == Grown(old(Body()))
      ensures direction == old(direction) && speed == old(speed)
    {
      GrownKeepsConnected(body[..length]);
      body[length] := body[length - 1];
      length := length + 1;
      assert body[..length] == Grown(old(body[..length]));
    }

    /** The tick interval shrinks to 0.8 of what it was. */
    method SpeedUp()
      requires Valid()
      modifies this`speed, this`speedUps
      ensures Valid() && speedUps == old(speedUps) + 1
      ensures speed == old(speed) * SpeedupFactor
      ensures 0.0 < speed < old(speed)
    {
      SpeedUpShrinks(speedUps);
      speed := speed * SpeedupFactor;
      speedUps := speedUps + 1;
    }

    /** One movement tick: shift the body in place from the tail down, then
        move or turn the head. */
    method Update()
      requires Valid()
      modifies this`direction, body
      ensures Valid()
      ensures State() == Rules.Update(old(State()))
      ensures length == old(length) && speed == old(speed) && speedUps == old(speedUps)
    {
      ghost var before := State();
      UpdateKeepsConnected(before);
      UpdateKeepsDirection(before);
      ShiftBody();
      MoveHead();
    }

    /** The shift loop: every segment but the head takes its predecessor's
        cell; the head stays put. */
    method ShiftBody()
      requires InBuffer()
      modifies body
      ensures Body() == Shifted(old(Body()))
    {
      var i := length - 1;
      while i > 0
        invariant 0 <= i < length
        invariant forall k :: i < k < length ==> body[k] == old(body[k - 1])
        invariant forall k :: 0 <= k <= i ==> body[k] == old(body[k])
      {
        body[i] := body[i - 1];
        i := i - 1;
      }
      assert body[..length] == Shifted(old(body[..length]));
    }

    /** The head step of a tick, on the shifted body. */
    method MoveHead()
      requires InBuffer()
      modifies this`direction, body
      ensures State() == HeadMove(old(Body()), old(direction))
    {
      var h := body[0];
      if direction == Right {
        if h.x == RowCells - 1 {
          var turn := false;
          if h.y < ColCells - 1 {
            turn := CanTurn(Down);
          }
          if turn {
            direction := Down;
            body[0] := Cell(h.x, h.y + 1);
          } else {
            direction := Up;
            body[0] := Cell(h.x, h.y - 1);
          }
        } else {
          body[0] := Cell(h.x + 1, h.y);
        }
      } else if direction == Left {
        if h.x == 0 {
          var turn := false;
          if h.y > 0 {
            turn := CanTurn(Up);
          }
          if turn {
            direction := Up;
            body[0] := Cell(h.x, h.y - 1);
          } else {
            direction := Down;
            body[0] := Cell(h.x, h.y + 1);
          }
        } else {
          body[0] := Cell(h.x - 1, h.y);
        }
      } else if direction == Up {
        if h.y == 0 {
          var turn := false;
          if h.x < RowCells - 1 {
            turn := CanTurn(Right);
          }
          if turn {
            direction := Right;
            body[0] := Cell(h.x + 1, h.y);
          } else {
            direction := Left;
            body[0] := Cell(h.x - 1, h.y);
          }
        } else {
          body[0] := Cell(h.x, h.y - 1);
        }
      } else if direction == Down {
        if h.y == ColCells - 1 {
          var turn := false;
          if h.x > 0 {
            turn := CanTurn(Left);
          }
          if turn {
            direction := Left;
            body[0] := Cell(h.x - 1, h.y);
          } else {
            direction := Right;
            body[0] := Cell(h.x + 1, h.y);
          }
        } else {
          body[0] := Cell(h.x, h.y + 1);
        }
      }
    }

    /** The self-collision test: the head shares its cell with a segment of
        index 2 or more. */
    method CheckCollision() returns (hit: bool)
      requires Valid()
      ensures hit == SelfCollides(Body())
      ensures hit ==> length >= 3
    {
      var i := 2;
      while i < length
        invariant 2 <= i
        invariant forall k :: 2 <= k < i && k < length ==> body[k] != body[0]
      {
        if body[0] == body[i] {
          return true;
        }
        i := i + 1;
      }
      return false;
    }

    /** The dot test: the head is on the dot's cell. */
    function HeadOn(dot: Cell): (hit: bool)
      reads this, body
      requires Valid()
      ensures hit <==> Body()[0] == dot
      ensures dot !in Body() ==> !hit
    {
      body[0] == dot
    }
  }
}
