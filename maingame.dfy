/** The earlier square-grid revision in main_game.cpp: a snake whose
    heading change has no reversal guard, a square boundary derived from
    the smaller screen dimension, food placed by one unchecked draw, and
    collision tests with no self-collision flag. */
module MainGame {
  import opened Geometry

  /** The smaller screen dimension less one: the last row of the frame,
      whose columns run to twice this value. */
  function SetBoundary(screenSize: Pos): (b: int)
    ensures b + 1 <= screenSize.0 && b + 1 <= screenSize.1
    ensures b + 1 == screenSize.0 || b + 1 == screenSize.1
  {
    var height := screenSize.0;
    var width := screenSize.1;
    if height > width then width - 1 else height - 1
  }

  /** The border of the frame for boundary `b`: rows 0 and `b`, columns 0
      and `2 * b`. */
  predicate OnSquareBorder(b: int, p: Pos) {
    p.0 == 0 || p.0 == b || p.1 == 0 || p.1 == 2 * b
  }

  /** The cells strictly inside that border. */
  predicate InSquareField(b: int, p: Pos) {
    1 <= p.0 <= b - 1 && 1 <= p.1 <= 2 * b - 1
  }

  class Snake {
    var body: seq<Pos>
    var direction: char
    var prevTailPos: Pos

    ghost predicate Valid()
      reads this
    {
      |body| >= 1
    }

    /** The stronger shape the game keeps when only w/a/s/d reach
        ChangeDirection. */
    ghost predicate WellFormed()
      reads this
    {
      Valid() && IsHeading(direction) && Connected(body)
    }

    constructor (initRow: int, initColumn: int, initDirection: char)
      ensures Valid()
      ensures body == [(initRow, initColumn)] && direction == initDirection
      ensures prevTailPos == (initRow, initColumn)
      ensures IsHeading(initDirection) ==> WellFormed()
    {
      body := [(initRow, initColumn)];
      direction := initDirection;
      prevTailPos := (initRow, initColumn);
    }

    method Move()
      requires Valid()
      modifies this
      ensures Valid()
      ensures body == Moved(old(body), old(direction))
      ensures prevTailPos == old(body)[|old(body)| - 1]
      ensures direction == old(direction)
      ensures old(WellFormed()) ==> WellFormed()
    {
      var rowOffset, columnOffset := 0, 0;
      if direction == 'a' {
        rowOffset, columnOffset := 0, -1;
      } else if direction == 'd' {
        rowOffset, columnOffset := 0, 1;
      } else if direction == 'w' {
        rowOffset, columnOffset := -1, 0;
      } else if direction == 's' {
        rowOffset, columnOffset := 1, 0;
      }
      prevTailPos := body[|body| - 1];
      var i := |body| - 1;
      while i > 0
        invariant 0 <= i < |body| == |old(body)|
        invariant forall k :: 0 <= k <= i ==> body[k] == old(body)[k]
        invariant forall k :: i < k < |body| ==> body[k] == old(body)[k - 1]
        invariant direction == old(direction)
        invariant prevTailPos == old(body)[|old(body)| - 1]
      {
        body := body[i := body[i - 1]];
        i := i - 1;
      }
      assert (rowOffset, columnOffset) == Offset(direction);
      body := body[0 := (body[0].0 + rowOffset, body[0].1 + columnOffset)];
      ShiftedIsMoved(old(body), body, old(direction));
      if old(WellFormed()) {
        MovedConnected(old(body), old(direction));
      }
    }

    /** Any character becomes the heading, a reversal included. */
    method ChangeDirection(newDirection: char)
      modifies this
      ensures direction == newDirection
      ensures body == old(body) && prevTailPos == old(prevTailPos)
      ensures old(WellFormed()) && IsHeading(newDirection) ==> WellFormed()
    {
      direction := newDirection;
    }

    /** Appends a segment behind the tail, opposite to the heading. */
    method Grow()
      requires Valid()
      modifies this
      ensures Valid()
      ensures body == Grown(old(body), direction)
      ensures direction == old(direction) && prevTailPos == old(prevTailPos)
      ensures old(WellFormed()) ==> WellFormed()
    {
      var tail := body[|body| - 1];
      var newRow, newColumn := tail.0, tail.1;
      if direction == 'a' {
        newColumn := newColumn + 1;
      } else if direction == 'd' {
        newColumn := newColumn - 1;
      } else if direction == 'w' {
        newRow := newRow + 1;
      } else if direction == 's' {
        newRow := newRow - 1;
      }
      body := body + [(newRow, newColumn)];
      if old(WellFormed()) {
        GrownConnected(old(body), direction);
      }
    }
  }

  /** The head collides when it is on the square border for this screen
      size; equality tests only. */
  predicate CheckBoundaryCollision(snake: Snake, screenSize: Pos)
    reads snake
    requires snake.Valid()
    ensures CheckBoundaryCollision(snake, screenSize) <==> OnSquareBorder(SetBoundary(screenSize), snake.body[0])
  {
    var head := snake.body[0];
    var boundary := SetBoundary(screenSize);
    head.0 == 0 || head.0 == boundary || head.1 == 0 || head.1 == boundary * 2
  }

  /** There is no flag: any segment on the head is a collision. */
  method CheckSelfCollision(snake: Snake) returns (hit: bool)
    requires snake.Valid()
    ensures hit <==> HitsSelf(snake.body)
  {
    var body := snake.body;
    var head := body[0];
    var i := 1;
    while i < |body|
      invariant 1 <= i <= |body|
      invariant forall j :: 1 <= j < i ==> body[j] != head
    {
      if body[i] == head {
        return true;
      }
      i := i + 1;
    }
    return false;
  }

  /** The cell one spawn picks from the two values `rand()` returned. */
  function SpawnCell(b: int, rowDraw: nat, colDraw: nat): (p: Pos)
    requires b != 1
    ensures b >= 2 ==> InSquareField(b, p) && !OnSquareBorder(b, p)
  {
    (rowDraw % (b - 1) + 1, colDraw % (b * 2 - 1) + 1)
  }

  class Food {
    var row: int
    var col: int

    constructor ()
      ensures row == -1 && col == -1
    {
      row, col := -1, -1;
    }

    /** One draw for the row, one for the column, and no test against the
        snake. */
    method Spawn(boundary: int, rowDraw: nat, colDraw: nat)
      requires boundary != 1
      modifies this
      ensures (row, col) == SpawnCell(boundary, rowDraw, colDraw)
    {
      row := rowDraw % (boundary - 1) + 1;
      col := colDraw % ((boundary * 2) - 1) + 1;
    }

    method CheckCollision(snake: Snake) returns (hit: bool)
      ensures hit <==> (row, col) in snake.body
    {
      var body := snake.body;
      var i := 0;
      while i < |body|
        invariant 0 <= i <= |body|
        invariant forall j :: 0 <= j < i ==> body[j] != (row, col)
      {
        if row == body[i].0 && col == body[i].1 {
          return true;
        }
        i := i + 1;
      }
      return false;
    }
  }

  /** A spawned cell is never a boundary hit for the screen it was drawn
      for, whatever the draws. */
  lemma SpawnIsNeverOnBorder(screenSize: Pos, rowDraw: nat, colDraw: nat, snake: Snake)
    requires SetBoundary(screenSize) >= 2 && snake.Valid()
    ensures var p := SpawnCell(SetBoundary(screenSize), rowDraw, colDraw);
            InSquareField(SetBoundary(screenSize), p) &&
            (snake.body[0] == p ==> !CheckBoundaryCollision(snake, screenSize))
  {
  }

  /** Food may land on the snake: with boundary 5 and both draws 0 it takes
      (1, 1), so it lands on any body whose head was started there. */
  lemma SpawnMayOverlapBody(body: seq<Pos>)
    requires |body| >= 1 && body[0] == (1, 1)
    ensures SpawnCell(5, 0, 0) in body
  {
    assert SpawnCell(5, 0, 0) == body[0];
  }

  /** Without the guard a reversal is fatal: when the head was reached from
      the second segment by heading `h`, moving by the opposite heading puts
      the head back on the second segment, which the move shifts to index 2. */
  lemma {:induction false} ReversalKills(body: seq<Pos>, h: char, r: char)
    requires |body| >= 3 && body[0] == Step(body[1], Offset(h)) && Opposite(h, r)
    ensures HitsSelf(Moved(body, r))
  {
    OppositeOffsetsCancel(h, r);
    var m := Moved(body, r);
    assert m[0] == body[1];
    assert m[2] == body[1];
  }

  /** The three-segment snake heading right at (5, 5), turned left, dies on
      its next move. */
  lemma ReversalScenario()
    ensures HitsSelf(Moved([(5, 5), (5, 4), (5, 3)], 'a'))
  {
    ReversalKills([(5, 5), (5, 4), (5, 3)], 'd', 'a');
  }
}
