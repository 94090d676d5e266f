/** The game-logic layer of the SnakeUtils.hpp revision: the snake without
    a screen reference, free collision tests that clip the screen size
    themselves, unconditional powerup spawning, a scoreboard without a high
    score, and the powerup effect kept in `playGame`'s locals, here the
    value `Effect`. */
module SnakeUtils {
  import opened Geometry
  import Speed
  import Cursor

  /** The gameplay globals of this revision. SELF_COLLISION is state, kept
      in `Effect`. */
  datatype Config = Config(
    initialSpeed: int,
    maxSpeed: int,
    speedMultiplier: int,
    enablePowerups: bool,
    powerupTime: int,
    powerupSpawnTime: int)

  const Defaults := Config(125, 50, 90, true, 10, 30)

  /** The screen size clipped by one in each dimension. */
  function SetBoundary(screenSize: Pos): (b: Pos)
    ensures b.0 + 1 == screenSize.0 && b.1 + 1 == screenSize.1
  {
    (screenSize.0 - 1, screenSize.1 - 1)
  }

  class Snake {
    var body: seq<Pos>
    var direction: char
    var prevTailPosition: Pos

    ghost predicate Valid()
      reads this
    {
      |body| >= 1
    }

    /** The stronger shape the game keeps when only w/a/s/d reach
        ChangeDirection. */
    ghost predicate WellFormed()
      reads this
    {
      Valid() && IsHeading(direction) && Connected(body)
    }

    constructor (initRow: int, initColumn: int, initDirection: char)
      ensures Valid()
      ensures body == [(initRow, initColumn)] && direction == initDirection
      ensures prevTailPosition == (initRow, initColumn)
      ensures IsHeading(initDirection) ==> WellFormed()
    {
      body := [(initRow, initColumn)];
      direction := initDirection;
      prevTailPosition := (initRow, initColumn);
    }

    method Move()
      requires Valid()
      modifies this
      ensures Valid()
      ensures body == Moved(old(body), old(direction))
      ensures prevTailPosition == old(body)[|old(body)| - 1]
      ensures direction == old(direction)
      ensures old(WellFormed()) ==> WellFormed()
    {
      var rowOffset, columnOffset := 0, 0;
      if direction == 'a' {
        rowOffset, columnOffset := 0, -1;
      } else if direction == 'd' {
        rowOffset, columnOffset := 0, 1;
      } else if direction == 'w' {
        rowOffset, columnOffset := -1, 0;
      } else if direction == 's' {
        rowOffset, columnOffset := 1, 0;
      }
      prevTailPosition := body[|body| - 1];
      var i := |body| - 1;
      while i > 0
        invariant 0 <= i < |body| == |old(body)|
        invariant forall k :: 0 <= k <= i ==> body[k] == old(body)[k]
        invariant forall k :: i < k < |body| ==> body[k] == old(body)[k - 1]
        invariant direction == old(direction)
        invariant prevTailPosition == old(body)[|old(body)| - 1]
      {
        body := body[i := body[i - 1]];
        i := i - 1;
      }
      assert (rowOffset, columnOffset) == Offset(direction);
      body := body[0 := (body[0].0 + rowOffset, body[0].1 + columnOffset)];
      ShiftedIsMoved(old(body), body, old(direction));
      if old(WellFormed()) {
        MovedConnected(old(body), old(direction));
      }
    }

    /** Only a change to the exact opposite heading is refused. */
    method ChangeDirection(newDirection: char)
      modifies this
      ensures direction == Turned(old(direction), newDirection)
      ensures body == old(body) && prevTailPosition == old(prevTailPosition)
      ensures old(WellFormed()) && IsHeading(newDirection) ==> WellFormed()
    {
      if !((newDirection == 'w' && direction == 's') || (newDirection == 's' && direction == 'w')) {
        if !((newDirection == 'a' && direction == 'd') || (newDirection == 'd' && direction == 'a')) {
          direction := newDirection;
        }
      }
    }

    /** Appends a segment behind the tail, opposite to the heading. */
    method Grow()
      requires Valid()
      modifies this
      ensures Valid()
      ensures body == Grown(old(body), direction)
      ensures direction == old(direction) && prevTailPosition == old(prevTailPosition)
      ensures old(WellFormed()) ==> WellFormed()
    {
      var tail := body[|body| - 1];
      var newRow, newColumn := tail.0, tail.1;
      if direction == 'a' {
        newColumn := newColumn + 1;
      } else if direction == 'd' {
        newColumn := newColumn - 1;
      } else if direction == 'w' {
        newRow := newRow + 1;
      } else if direction == 's' {
        newRow := newRow - 1;
      }
      body := body + [(newRow, newColumn)];
      if old(WellFormed()) {
        GrownConnected(old(body), direction);
      }
    }
  }

  /** The scan stops at the first segment on the head and reports the flag
      there, so a hit counts only while self-collision is on. */
  method CheckBodyCollision(snake: Snake, selfCollision: bool) returns (hit: bool)
    requires snake.Valid()
    ensures hit <==> selfCollision && HitsSelf(snake.body)
  {
    var body := snake.body;
    var head := body[0];
    var i := 1;
    while i < |body|
      invariant 1 <= i <= |body|
      invariant forall j :: 1 <= j < i ==> body[j] != head
    {
      if body[i] == head {
        return selfCollision;
      }
      i := i + 1;
    }
    return false;
  }

  /** The head collides when it is on a border line of the frame drawn for
      this screen size, whose corner is the clipped size. */
  predicate CheckBoundaryCollision(snake: Snake, screenSize: Pos)
    reads snake
    requires snake.Valid()
    ensures CheckBoundaryCollision(snake, screenSize) <==> OnBorderLine(SetBoundary(screenSize), snake.body[0])
  {
    var head := snake.body[0];
    var boundary := SetBoundary(screenSize);
    head.0 == 3 || head.0 == boundary.0 || head.1 == 0 || head.1 == boundary.1
  }

  /** Whether `row`, `col` is on a segment of `body`; shared by food and
      powerups. */
  method CellOnBody(row: int, col: int, body: seq<Pos>) returns (hit: bool)
    ensures hit <==> (row, col) in body
  {
    var i := 0;
    while i < |body|
      invariant 0 <= i <= |body|
      invariant forall j :: 0 <= j < i ==> body[j] != (row, col)
    {
      if row == body[i].0 && col == body[i].1 {
        return true;
      }
      i := i + 1;
    }
    return false;
  }

  class Food {
    var row: int
    var col: int

    constructor ()
      ensures row == -1 && col == -1
    {
      row, col := -1, -1;
    }

    method CheckCollision(snake: Snake) returns (hit: bool)
      ensures hit <==> (row, col) in snake.body
    {
      hit := CellOnBody(row, col, snake.body);
    }

    /** Rejection sampling as in the other revision, with the snake passed
        in; `draws` supplies the values `rand()` returns, one pair per
        iteration, and `placed` is false when they run out. */
    method Spawn(boundary: Pos, snake: Snake, draws: seq<(nat, nat)>) returns (placed: bool)
      requires boundary.0 != 4 && boundary.1 != 1
      modifies this
      ensures var cells := FoodCells(boundary, draws);
              placed == (FirstFree(cells, snake.body) < |cells|) &&
              (placed ==> (row, col) == cells[FirstFree(cells, snake.body)])
      ensures placed ==> (row, col) !in snake.body
      ensures placed && boundary.0 > 4 && boundary.1 > 1 ==>
                InPlayfield(boundary, (row, col)) && !OnBorderLine(boundary, (row, col))
      ensures |draws| == 0 ==> row == old(row) && col == old(col)
    {
      ghost var cells := FoodCells(boundary, draws);
      var n := 0;
      placed := false;
      while !placed && n < |draws|
        invariant 0 <= n <= |draws|
        invariant placed ==> 1 <= n && (row, col) == cells[n - 1] && (row, col) !in snake.body
        invariant forall j :: 0 <= j < (if placed then n - 1 else n) ==> cells[j] in snake.body
        invariant n == 0 ==> row == old(row) && col == old(col)
      {
        row := draws[n].0 % (boundary.0 - 4) + 4;
        col := draws[n].1 % (boundary.1 - 1) + 1;
        n := n + 1;
        var hit := CheckCollision(snake);
        placed := !hit;
      }
      if placed {
        FirstFreeUnique(cells, snake.body, n - 1);
      } else {
        FirstFreeUnique(cells, snake.body, n);
      }
    }
  }

  class Powerups {
    var row: int
    var col: int
    /** The powerup's `type`, which has no initialiser in the source; here
        it starts as 0. */
    var kind: int

    constructor ()
      ensures row == -1 && col == -1 && kind == 0
    {
      row, col, kind := -1, -1, 0;
    }

    method CheckCollision(snake: Snake) returns (hit: bool)
      ensures hit <==> (row, col) in snake.body
    {
      hit := CellOnBody(row, col, snake.body);
    }

    /** Rejection sampling over (row, column, type) draws, with no gate of
        its own. */
    method Spawn(boundary: Pos, snake: Snake, draws: seq<(nat, nat, nat)>) returns (placed: bool)
      requires boundary.0 != 4 && boundary.1 != 1
      modifies this
      ensures var cells := PowerupCells(boundary, draws);
              var k := FirstFree(cells, snake.body);
              placed == (k < |cells|) &&
              (placed ==> (row, col) == cells[k] && kind == draws[k].2 % 2 + 1)
      ensures placed ==> (kind == 1 || kind == 2) && (row, col) !in snake.body
      ensures placed && boundary.0 > 4 && boundary.1 > 1 ==> InPlayfield(boundary, (row, col))
    {
      ghost var cells := PowerupCells(boundary, draws);
      var n := 0;
      placed := false;
      while !placed && n < |draws|
        invariant 0 <= n <= |draws|
        invariant placed ==> 1 <= n && (row, col) == cells[n - 1] && (row, col) !in snake.body
        invariant placed ==> kind == draws[n - 1].2 % 2 + 1
        invariant forall j :: 0 <= j < (if placed then n - 1 else n) ==> cells[j] in snake.body
      {
        row := draws[n].0 % (boundary.0 - 4) + 4;
        col := draws[n].1 % (boundary.1 - 1) + 1;
        kind := draws[n].2 % 2 + 1;
        n := n + 1;
        var hit := CheckCollision(snake);
        placed := !hit;
      }
      if placed {
        FirstFreeUnique(cells, snake.body, n - 1);
      } else {
        FirstFreeUnique(cells, snake.body, n);
      }
    }
  }

  /** A cell the spawn loop picks for the clipped screen size is neither a
      boundary hit nor on the snake. */
  lemma SpawnCellIsSafe(screenSize: Pos, draws: seq<(nat, nat)>, snake: Snake)
    requires screenSize.0 > 5 && screenSize.1 > 2 && snake.Valid()
    ensures var cells := FoodCells(SetBoundary(screenSize), draws);
            var k := FirstFree(cells, snake.body);
            k < |cells| ==> cells[k] !in snake.body && !OnBorderLine(SetBoundary(screenSize), cells[k])
  {
  }

  /** The score counter of this revision; it keeps no high score. */
  class ScoreBoard {
    var currentScore: int

    constructor ()
      ensures currentScore == 0
    {
      currentScore := 0;
    }

    method ScoreEvent()
      modifies this
      ensures currentScore == old(currentScore) + 1
    {
      currentScore := currentScore + 1;
    }
  }

  // ---------------------------------------------------------------------
  // The powerup effect and the interval, as `playGame` keeps them

  /** `playGame`'s locals for the interval, the running effect and the
      on-board flag, with the SELF_COLLISION global. The uninitialised
      start and completion times start as 0 here. The start time is written
      before it is read; the completion time is read by the respawn test
      (`RespawnDue`) on every tick after the first, and until an effect has
      ended it still holds its starting value. */
  datatype Effect = Effect(
    gameSpeed: int,
    activePowerup: bool,
    selfCollision: bool,
    powerupStartTime: int,
    powerUpSpawned: bool,
    powerUpCompleteTime: int)

  function InitialEffect(cfg: Config, selfCollision: bool): (e: Effect)
    ensures e.gameSpeed == cfg.initialSpeed && !e.activePowerup && !e.powerUpSpawned
    ensures e.selfCollision == selfCollision
  {
    Effect(cfg.initialSpeed, false, selfCollision, 0, false, 0)
  }

  /** Eating food: the speed-up rule applied to the interval. */
  function EatFood(e: Effect, cfg: Config): (r: Effect)
    ensures r.gameSpeed == Speed.RampedInterval(e.gameSpeed, cfg.speedMultiplier, cfg.maxSpeed)
    ensures r.(gameSpeed := e.gameSpeed) == e
  {
    e.(gameSpeed := Speed.RampedInterval(e.gameSpeed, cfg.speedMultiplier, cfg.maxSpeed))
  }

  /** The head reaching a powerup of type `kind` at time `now`: while an
      effect runs, or for a type other than 1 and 2, nothing happens;
      otherwise slow motion doubles the interval or the other type turns
      self-collision off, and the effect starts. */
  function Collect(e: Effect, kind: int, now: int): (r: Effect)
    ensures e.activePowerup || (kind != 1 && kind != 2) ==> r == e
    ensures !e.activePowerup && (kind == 1 || kind == 2) ==>
              r.activePowerup && r.powerupStartTime == now && !r.powerUpSpawned &&
              r.powerUpCompleteTime == e.powerUpCompleteTime
    ensures !e.activePowerup && kind == 1 ==> r.gameSpeed == 2 * e.gameSpeed && r.selfCollision == e.selfCollision
    ensures !e.activePowerup && kind == 2 ==> r.gameSpeed == e.gameSpeed && !r.selfCollision
  {
    if e.activePowerup then e
    else if kind == 1 then e.(gameSpeed := e.gameSpeed * 2, activePowerup := true, powerupStartTime := now, powerUpSpawned := false)
    else if kind == 2 then e.(selfCollision := false, activePowerup := true, powerupStartTime := now, powerUpSpawned := false)
    else e
  }

  /** The expiry check of one tick at time `now`, for the powerup's current
      `kind`: an effect ends only once strictly more than `powerupTime`
      seconds have passed; slow motion then halves the interval by integer
      division, with no floor, and the other type turns self-collision
      back on. */
  function Expire(e: Effect, kind: int, now: int, powerupTime: int): (r: Effect)
    ensures !e.activePowerup || now - e.powerupStartTime <= powerupTime ==> r == e
    ensures e.activePowerup && now - e.powerupStartTime > powerupTime ==>
              !r.activePowerup && r.powerUpCompleteTime == now &&
              r.powerupStartTime == e.powerupStartTime && r.powerUpSpawned == e.powerUpSpawned
    ensures e.activePowerup && now - e.powerupStartTime > powerupTime && kind == 1 ==>
              r.gameSpeed == Speed.TruncDiv(e.gameSpeed, 2) && r.selfCollision == e.selfCollision
    ensures e.activePowerup && now - e.powerupStartTime > powerupTime && kind == 2 ==>
              r.gameSpeed == e.gameSpeed && r.selfCollision
    ensures e.activePowerup && now - e.powerupStartTime > powerupTime && kind != 1 && kind != 2 ==>
              r.gameSpeed == e.gameSpeed && r.selfCollision == e.selfCollision
  {
    if e.activePowerup && now - e.powerupStartTime > powerupTime then
      var ended := e.(activePowerup := false, powerUpCompleteTime := now);
      if kind == 1 then ended.(gameSpeed := Speed.TruncDiv(e.gameSpeed, 2))
      else if kind == 2 then ended.(selfCollision := true)
      else ended
    else e
  }

  /** Exactly `powerupTime` seconds after the start the effect is still
      running; one second later it has ended. */
  lemma ExpiryIsStrict(e: Effect, kind: int, powerupTime: int)
    requires e.activePowerup
    ensures Expire(e, kind, e.powerupStartTime + powerupTime, powerupTime) == e
    ensures !Expire(e, kind, e.powerupStartTime + powerupTime + 1, powerupTime).activePowerup
  {
  }

  /** Slow motion collected and expired with no food in between gives back
      exactly the interval it started from, and leaves self-collision as it
      was. */
  lemma {:induction false} SlowMotionRoundTrip(e: Effect, start: int, now: int, powerupTime: int)
    requires !e.activePowerup && now - start > powerupTime
    ensures var r := Expire(Collect(e, 1, start), 1, now, powerupTime);
            r.gameSpeed == e.gameSpeed && !r.activePowerup && r.selfCollision == e.selfCollision
  {
    Speed.TruncDivOfMultiple(e.gameSpeed, 2);
    assert e.gameSpeed * 2 == 2 * e.gameSpeed;
  }

  /** The no-collision powerup leaves the interval alone and, once it
      expires, turns self-collision on, even if it was off before. */
  lemma NoCollisionRoundTrip(e: Effect, start: int, now: int, powerupTime: int)
    requires !e.activePowerup && now - start > powerupTime
    ensures var r := Expire(Collect(e, 2, start), 2, now, powerupTime);
            r.gameSpeed == e.gameSpeed && !r.activePowerup && r.selfCollision
  {
  }

  /** With no floor on expiry the interval can end below MAX_SPEED: slow
      motion taken at 50 ms doubles it to 100, one food event ramps that to
      90, and expiry halves it to 45. */
  lemma ExpiryHasNoFloor()
    ensures var e := Collect(InitialEffect(Defaults, true).(gameSpeed := 50), 1, 0);
            var r := Expire(EatFood(e, Defaults), 1, Defaults.powerupTime + 1, Defaults.powerupTime);
            r.gameSpeed == 45 && r.gameSpeed < Defaults.maxSpeed
  {
  }

  /** The respawn test at the top of a tick: the powerup has never been
      placed (its row is still -1), or no powerup has been spawned since the
      last collection and more than `powerupSpawnTime` seconds separate the
      end of the last effect from `lastTickTime`, the clock read at the end
      of the previous tick. A spawn sets `powerUpSpawned`; a collection
      clears it. */
  predicate RespawnDue(powerupRow: int, e: Effect, lastTickTime: int, cfg: Config) {
    powerupRow == -1 ||
    (lastTickTime - e.powerUpCompleteTime > cfg.powerupSpawnTime && !e.powerUpSpawned)
  }

  /** The first placement is unconditional; after it a spawned powerup
      blocks the next spawn, and an uncollected-since-spawn flag is the only
      other thing the cooldown is weighed against. */
  lemma RespawnGate(powerupRow: int, e: Effect, lastTickTime: int, cfg: Config)
    ensures powerupRow == -1 ==> RespawnDue(powerupRow, e, lastTickTime, cfg)
    ensures powerupRow != -1 && e.powerUpSpawned ==> !RespawnDue(powerupRow, e, lastTickTime, cfg)
    ensures powerupRow != -1 && !e.powerUpSpawned ==>
              (RespawnDue(powerupRow, e, lastTickTime, cfg) <==>
               lastTickTime - e.powerUpCompleteTime > cfg.powerupSpawnTime)
    ensures powerupRow != -1 ==> !RespawnDue(powerupRow, e.(powerUpSpawned := true), lastTickTime, cfg)
  {
  }

  /** Collecting a powerup re-opens the respawn test at once: the cooldown
      is still measured from the end of the previous effect, not from the
      collection. */
  lemma CollectReopensRespawn(e: Effect, kind: int, now: int, powerupRow: int, lastTickTime: int, cfg: Config)
    requires !e.activePowerup && (kind == 1 || kind == 2)
    requires lastTickTime - e.powerUpCompleteTime > cfg.powerupSpawnTime
    ensures RespawnDue(powerupRow, Collect(e, kind, now), lastTickTime, cfg)
  {
  }

  /** An expiry at `now` restarts the cooldown: from then on a respawn is due
      exactly when more than `powerupSpawnTime` seconds have passed since
      `now`. */
  lemma ExpiryStartsCooldown(e: Effect, kind: int, now: int, powerupRow: int, lastTickTime: int, cfg: Config)
    requires e.activePowerup && now - e.powerupStartTime > cfg.powerupTime
    requires powerupRow != -1 && !e.powerUpSpawned
    ensures RespawnDue(powerupRow, Expire(e, kind, now, cfg.powerupTime), lastTickTime, cfg) <==>
            lastTickTime - now > cfg.powerupSpawnTime
  {
  }

  /** Before any effect has ended the completion time is still its starting
      value (0 here), so a powerup collected at second 1000 is replaced on
      the next tick while slow motion runs; when the replacement is of type
      2, expiry reads that type and leaves the doubled interval in place. */
  lemma ReplacementDecidesExpiry()
    ensures var e := Collect(InitialEffect(Defaults, true), 1, 1000);
            RespawnDue(5, e, 1000, Defaults) &&
            Expire(e.(powerUpSpawned := true), 2, 1011, Defaults.powerupTime).gameSpeed == 2 * Defaults.initialSpeed
  {
  }

  class Menu {
    const menuText: seq<string>
    const menuOptions: seq<string>
    const maxCursorPosition: int
    var cursorPosition: int

    ghost predicate Valid()
      reads this
    {
      maxCursorPosition == |menuOptions| &&
      (maxCursorPosition >= 1 ==> 1 <= cursorPosition <= maxCursorPosition)
    }

    constructor (text: seq<string>, options: seq<string>)
      ensures menuText == text && menuOptions == options
      ensures maxCursorPosition == |options| && cursorPosition == 1
      ensures Valid()
    {
      menuText, menuOptions := text, options;
      maxCursorPosition := |options|;
      cursorPosition := 1;
    }

    method MoveCursor(offset: int)
      modifies this
      ensures cursorPosition == Cursor.MovedCursor(old(cursorPosition), offset, maxCursorPosition)
      ensures old(Valid()) ==> Valid()
    {
      var toPosition := cursorPosition + offset;
      if toPosition > 0 && toPosition <= maxCursorPosition {
        cursorPosition := toPosition;
      }
    }

    /** The selection is always an option number when there are options. */
    function GetSelection(): (r: int)
      reads this
      requires Valid()
      ensures |menuOptions| >= 1 ==> 1 <= r <= |menuOptions|
    {
      cursorPosition
    }

    /** The length of the longest line over options and header, 0 when
        both are empty. */
    method GetLongestStringLength() returns (r: int)
      ensures r >= 0
      ensures forall s :: s in menuOptions ==> |s| <= r
      ensures forall s :: s in menuText ==> |s| <= r
      ensures r == 0 || exists s :: (s in menuOptions || s in menuText) && |s| == r
    {
      r := 0;
      var i := 0;
      while i < |menuOptions|
        invariant 0 <= i <= |menuOptions| && r >= 0
        invariant forall j :: 0 <= j < i ==> |menuOptions[j]| <= r
        invariant r == 0 || exists j :: 0 <= j < i && |menuOptions[j]| == r
      {
        if |menuOptions[i]| > r {
          r := |menuOptions[i]|;
        }
        i := i + 1;
      }
      i := 0;
      while i < |menuText|
        invariant 0 <= i <= |menuText| && r >= 0
        invariant forall s :: s in menuOptions ==> |s| <= r
        invariant forall j :: 0 <= j < i ==> |menuText[j]| <= r
        invariant r == 0 || (exists s :: s in menuOptions && |s| == r) ||
                  exists j :: 0 <= j < i && |menuText[j]| == r
      {
        if |menuText[i]| > r {
          r := |menuText[i]|;
        }
        i := i + 1;
      }
    }
  }
}
