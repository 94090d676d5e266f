/** The game-logic layer of the GameCode.hpp revision: the snake, food and
    powerups (which hold a reference to the snake), the scoreboard with the
    session high score, the menu cursor, and the powerup timers read from a
    clock passed in as `now`. */
module GameCode {
  import opened Geometry
  import Speed
  import Cursor

  /** The gameplay globals of this revision. SELF_COLLISION and
      HIGHEST_SCORE are state, passed to the members that use them. */
  datatype Config = Config(
    initialSpeed: int,
    maxSpeed: int,
    speedMultiplier: int,
    enablePowerups: bool,
    powerupTime: int,
    powerupSpawnTime: int,
    slowDownIncrement: int)

  const Defaults := Config(200, 50, 85, true, 10, 15, 2)

  /** The screen size clipped by one in each dimension: the bottom-right
      corner of the drawn border. */
  function SetBoundary(screenSize: Pos): (b: Pos)
    ensures b.0 + 1 == screenSize.0 && b.1 + 1 == screenSize.1
  {
    (screenSize.0 - 1, screenSize.1 - 1)
  }

  class Snake {
    var body: seq<Pos>
    var direction: char
    var prevTailPosition: Pos
    /** The `display_size` given at construction; the boundary test compares
        against it unchanged. */
    const screenSize: Pos

    ghost predicate Valid()
      reads this
    {
      |body| >= 1
    }

    /** The stronger shape the game keeps when only w/a/s/d reach
        ChangeDirection. */
    ghost predicate WellFormed()
      reads this
    {
      Valid() && IsHeading(direction) && Connected(body)
    }

    constructor (displaySize: Pos, initRow: int, initColumn: int, initDirection: char)
      ensures Valid()
      ensures body == [(initRow, initColumn)] && direction == initDirection
      ensures prevTailPosition == (initRow, initColumn) && screenSize == displaySize
      ensures IsHeading(initDirection) ==> WellFormed()
    {
      body := [(initRow, initColumn)];
      direction := initDirection;
      prevTailPosition := (initRow, initColumn);
      screenSize := displaySize;
    }

    method Move()
      requires Valid()
      modifies this
      ensures Valid()
      ensures body == Moved(old(body), old(direction))
      ensures prevTailPosition == old(body)[|old(body)| - 1]
      ensures direction == old(direction)
      ensures old(WellFormed()) ==> WellFormed()
    {
      var rowOffset, columnOffset := 0, 0;
      if direction == 'a' {
        rowOffset, columnOffset := 0, -1;
      } else if direction == 'd' {
        rowOffset, columnOffset := 0, 1;
      } else if direction == 'w' {
        rowOffset, columnOffset := -1, 0;
      } else if direction == 's' {
        rowOffset, columnOffset := 1, 0;
      }
      prevTailPosition := body[|body| - 1];
      var i := |body| - 1;
      while i > 0
        invariant 0 <= i < |body| == |old(body)|
        invariant forall k :: 0 <= k <= i ==> body[k] == old(body)[k]
        invariant forall k :: i < k < |body| ==> body[k] == old(body)[k - 1]
        invariant direction == old(direction)
        invariant prevTailPosition == old(body)[|old(body)| - 1]
      {
        body := body[i := body[i - 1]];
        i := i - 1;
      }
      assert (rowOffset, columnOffset) == Offset(direction);
      body := body[0 := (body[0].0 + rowOffset, body[0].1 + columnOffset)];
      ShiftedIsMoved(old(body), body, old(direction));
      if old(WellFormed()) {
        MovedConnected(old(body), old(direction));
      }
    }

    /** Only a change to the exact opposite heading is refused. */
    method ChangeDirection(newDirection: char)
      modifies this
      ensures direction == Turned(old(direction), newDirection)
      ensures body == old(body) && prevTailPosition == old(prevTailPosition)
      ensures old(WellFormed()) && IsHeading(newDirection) ==> WellFormed()
    {
      if !((newDirection == 'w' && direction == 's') || (newDirection == 's' && direction == 'w')) {
        if !((newDirection == 'a' && direction == 'd') || (newDirection == 'd' && direction == 'a')) {
          direction := newDirection;
        }
      }
    }

    /** Appends a segment behind the tail, opposite to the heading. */
    method Grow()
      requires Valid()
      modifies this
      ensures Valid()
      ensures body == Grown(old(body), direction)
      ensures direction == old(direction) && prevTailPosition == old(prevTailPosition)
      ensures old(WellFormed()) ==> WellFormed()
    {
      var tail := body[|body| - 1];
      var newRow, newColumn := tail.0, tail.1;
      if direction == 'a' {
        newColumn := newColumn + 1;
      } else if direction == 'd' {
        newColumn := newColumn - 1;
      } else if direction == 'w' {
        newRow := newRow + 1;
      } else if direction == 's' {
        newRow := newRow - 1;
      }
      body := body + [(newRow, newColumn)];
      if old(WellFormed()) {
        GrownConnected(old(body), direction);
      }
    }

    /** The scan stops at the first segment on the head and reports the
        flag there, so a hit counts only while self-collision is on. */
    method CheckSelfCollision(selfCollision: bool) returns (hit: bool)
      requires Valid()
      ensures hit <==> selfCollision && HitsSelf(body)
    {
      var head := body[0];
      var i := 1;
      while i < |body|
        invariant 1 <= i <= |body|
        invariant forall j :: 1 <= j < i ==> body[j] != head
      {
        if body[i] == head {
          return selfCollision;
        }
        i := i + 1;
      }
      return false;
    }

    /** Equality tests only: the head collides when it is on a border line
        of the frame whose bottom-right corner is `screenSize`. */
    predicate CheckBoundaryCollision()
      reads this
      requires Valid()
      ensures CheckBoundaryCollision() <==> OnBorderLine(screenSize, body[0])
    {
      var head := body[0];
      head.0 == 3 || head.0 == screenSize.0 || head.1 == 0 || head.1 == screenSize.1
    }
  }

  /** A snake built with the clipped size collides exactly on the border
      the grid draws; one built with the terminal size itself does not see
      the drawn bottom border. */
  lemma BoundaryDependsOnConstructorSize(s: Snake, terminal: Pos)
    requires s.Valid() && InFrameBox(SetBoundary(terminal), s.body[0])
    ensures s.screenSize == SetBoundary(terminal) ==>
              (s.CheckBoundaryCollision() <==> !InPlayfield(SetBoundary(terminal), s.body[0]))
    ensures (s.screenSize == terminal && s.body[0].0 == terminal.0 - 1 && s.body[0].0 != 3 &&
             s.body[0].1 != 0 && s.body[0].1 < terminal.1) ==> !s.CheckBoundaryCollision()
  {
    BorderLinesEnclosePlayfield(SetBoundary(terminal), s.body[0]);
  }

  class Food {
    var row: int
    var col: int
    const snake: Snake

    /** Food starts unset, with row and column -1. */
    constructor (s: Snake)
      ensures row == -1 && col == -1 && snake == s
    {
      row, col := -1, -1;
      snake := s;
    }

    method CheckCollision() returns (hit: bool)
      ensures hit <==> (row, col) in snake.body
    {
      var body := snake.body;
      var i := 0;
      while i < |body|
        invariant 0 <= i <= |body|
        invariant forall j :: 0 <= j < i ==> body[j] != (row, col)
      {
        if row == body[i].0 && col == body[i].1 {
          return true;
        }
        i := i + 1;
      }
      return false;
    }

    /** Rejection sampling: each iteration draws a row and a column in
        the playfield, and the loop repeats while the cell is on the snake.
        `draws` supplies the values `rand()` returns, one pair per
        iteration; `placed` is false when they run out before a free cell
        turns up. */
    method Spawn(boundary: Pos, draws: seq<(nat, nat)>) returns (placed: bool)
      requires boundary.0 != 4 && boundary.1 != 1
      modifies this
      ensures var cells := FoodCells(boundary, draws);
              placed == (FirstFree(cells, snake.body) < |cells|) &&
              (placed ==> (row, col) == cells[FirstFree(cells, snake.body)])
      ensures placed ==> (row, col) !in snake.body
      ensures placed && boundary.0 > 4 && boundary.1 > 1 ==> InPlayfield(boundary, (row, col))
      ensures !placed && |draws| > 0 ==>
                (row, col) == Candidate(boundary, draws[|draws| - 1].0, draws[|draws| - 1].1)
      ensures |draws| == 0 ==> row == old(row) && col == old(col)
    {
      ghost var cells := FoodCells(boundary, draws);
      var n := 0;
      placed := false;
      while !placed && n < |draws|
        invariant 0 <= n <= |draws|
        invariant placed ==> 1 <= n && (row, col) == cells[n - 1] && (row, col) !in snake.body
        invariant forall j :: 0 <= j < (if placed then n - 1 else n) ==> cells[j] in snake.body
        invariant !placed && n > 0 ==> (row, col) == cells[n - 1]
        invariant n == 0 ==> row == old(row) && col == old(col)
      {
        row := draws[n].0 % (boundary.0 - 4) + 4;
        col := draws[n].1 % (boundary.1 - 1) + 1;
        n := n + 1;
        var hit := CheckCollision();
        placed := !hit;
      }
      if placed {
        FirstFreeUnique(cells, snake.body, n - 1);
      } else {
        FirstFreeUnique(cells, snake.body, n);
      }
    }
  }

  /** The interval after the slow-motion effect ends: the interval divided
      by the increment, unless that is not above MAX_SPEED, in which case
      MAX_SPEED. */
  function RestoredInterval(speed: int, increment: int, maxSpeed: int): (r: int)
    requires increment != 0
    ensures r >= maxSpeed
    ensures Speed.TruncDiv(speed, increment) > maxSpeed ==> r == Speed.TruncDiv(speed, increment)
    ensures Speed.TruncDiv(speed, increment) <= maxSpeed ==> r == maxSpeed
  {
    if Speed.TruncDiv(speed, increment) > maxSpeed then Speed.TruncDiv(speed, increment) else maxSpeed
  }

  /** Ending slow motion undoes starting it, except that the result is
      never faster than MAX_SPEED. */
  lemma {:induction false} RestoreUndoesSlowDown(speed: int, increment: int, maxSpeed: int)
    requires increment != 0
    ensures RestoredInterval(speed * increment, increment, maxSpeed) == if speed > maxSpeed then speed else maxSpeed
  {
    Speed.TruncDivOfMultiple(speed, increment);
  }

  /** With the defaults: slow motion taken at 50 ms doubles the interval to
      100 ms and expiry gives back 50 ms; with one food event during it (to
      85 ms), expiry computes 85 / 2 = 42, below the floor, so 50. */
  lemma SlowMotionScenarios()
    ensures RestoredInterval(50 * Defaults.slowDownIncrement, Defaults.slowDownIncrement, Defaults.maxSpeed) == 50
    ensures RestoredInterval(Speed.RampedInterval(50 * Defaults.slowDownIncrement, Defaults.speedMultiplier, Defaults.maxSpeed),
                             Defaults.slowDownIncrement, Defaults.maxSpeed) == 50
    ensures Speed.RampedInterval(50 * Defaults.slowDownIncrement, Defaults.speedMultiplier, Defaults.maxSpeed) == 85
  {
  }

  class Powerups {
    var row: int
    var col: int
    /** The powerup's `type`: 1 is slow motion, 2 suspends self-collision. */
    var kind: int
    var powerUpActive: bool
    var initialPowerUpSpawned: bool
    /** The flag the game loop shares with this object by reference. */
    var isPowerUpSpawned: bool
    var powerUpActivationTime: int
    const snake: Snake

    /** `type`, `powerUpActive` and `powerUpActivationTime` have no
        initialiser in the source; here they start as 0, false and 0. */
    constructor (s: Snake, powerUpSpawned: bool)
      ensures row == -1 && col == -1 && kind == 0
      ensures !powerUpActive && !initialPowerUpSpawned && isPowerUpSpawned == powerUpSpawned
      ensures powerUpActivationTime == 0 && snake == s
    {
      row, col, kind := -1, -1, 0;
      powerUpActive, initialPowerUpSpawned, isPowerUpSpawned := false, false, powerUpSpawned;
      powerUpActivationTime := 0;
      snake := s;
    }

    method CheckCollision() returns (hit: bool)
      ensures hit <==> (row, col) in snake.body
    {
      var body := snake.body;
      var i := 0;
      while i < |body|
        invariant 0 <= i <= |body|
        invariant forall j :: 0 <= j < i ==> body[j] != (row, col)
      {
        if row == body[i].0 && col == body[i].1 {
          return true;
        }
        i := i + 1;
      }
      return false;
    }

    /** Applies the effect to the game loop's interval and self-collision
        flag (both passed by reference in the source, here in and out),
        marks the effect active and stamps it with `now`. */
    method ActivatePowerUp(gameSpeed: int, selfCollision: bool, now: int, cfg: Config)
      returns (speed: int, collision: bool)
      modifies this`powerUpActive, this`powerUpActivationTime
      ensures kind == 1 ==> speed == gameSpeed * cfg.slowDownIncrement && collision == selfCollision
      ensures kind == 2 ==> speed == gameSpeed && !collision
      ensures kind != 1 && kind != 2 ==> speed == gameSpeed && collision == selfCollision
      ensures powerUpActive && powerUpActivationTime == now
    {
      speed, collision := gameSpeed, selfCollision;
      if kind == 1 {
        speed := gameSpeed * cfg.slowDownIncrement;
      } else if kind == 2 {
        collision := false;
      }
      powerUpActive := true;
      powerUpActivationTime := now;
    }

    /** Reverses the effect: slow motion divides the interval back, floored
        at MAX_SPEED; the other type turns self-collision back on. */
    method DeactivatePowerUp(gameSpeed: int, selfCollision: bool, cfg: Config)
      returns (speed: int, collision: bool)
      requires kind == 1 ==> cfg.slowDownIncrement != 0
      modifies this`powerUpActive
      ensures kind == 1 ==> speed == RestoredInterval(gameSpeed, cfg.slowDownIncrement, cfg.maxSpeed)
      ensures kind == 1 ==> speed >= cfg.maxSpeed && collision == selfCollision
      ensures kind == 2 ==> speed == gameSpeed && collision
      ensures kind != 1 && kind != 2 ==> speed == gameSpeed && collision == selfCollision
      ensures !powerUpActive
    {
      speed, collision := gameSpeed, selfCollision;
      if kind == 1 {
        if Speed.TruncDiv(gameSpeed, cfg.slowDownIncrement) > cfg.maxSpeed {
          speed := Speed.TruncDiv(gameSpeed, cfg.slowDownIncrement);
        } else {
          speed := cfg.maxSpeed;
        }
      } else if kind == 2 {
        collision := true;
      }
      powerUpActive := false;
    }

    /** The effect has lasted at least POWERUP_TIME seconds. */
    predicate PowerUpExpired(now: int, cfg: Config)
      reads this
    {
      now - powerUpActivationTime >= cfg.powerupTime
    }

    /** The effect's duration and the respawn cooldown have both passed. */
    predicate RespawnPowerUpTimer(now: int, cfg: Config)
      reads this
    {
      now - powerUpActivationTime >= cfg.powerupTime + cfg.powerupSpawnTime
    }

    predicate ShouldPowerUpSpawn(now: int, cfg: Config)
      reads this
    {
      if !cfg.enablePowerups then false
      else if col == -1 && !initialPowerUpSpawned then true
      else !powerUpActive && RespawnPowerUpTimer(now, cfg) && !isPowerUpSpawned
    }

    /** When the gate allows it, rejection sampling over (row, column,
        type) draws as for food; then the first-spawn and on-board flags
        are set. */
    method Spawn(boundary: Pos, now: int, cfg: Config, draws: seq<(nat, nat, nat)>) returns (placed: bool)
      requires boundary.0 != 4 && boundary.1 != 1
      modifies this
      ensures !old(ShouldPowerUpSpawn(now, cfg)) ==> !placed && unchanged(this)
      ensures var cells := PowerupCells(boundary, draws);
              var k := FirstFree(cells, snake.body);
              old(ShouldPowerUpSpawn(now, cfg)) ==>
                placed == (k < |cells|) &&
                (placed ==> (row, col) == cells[k] && kind == draws[k].2 % 2 + 1)
      ensures placed ==> (kind == 1 || kind == 2) && (row, col) !in snake.body
      ensures placed && boundary.0 > 4 && boundary.1 > 1 ==> InPlayfield(boundary, (row, col))
      ensures placed ==> initialPowerUpSpawned && isPowerUpSpawned
      ensures placed ==> forall t :: !ShouldPowerUpSpawn(t, cfg)
      ensures !placed ==> initialPowerUpSpawned == old(initialPowerUpSpawned) &&
                          isPowerUpSpawned == old(isPowerUpSpawned)
      ensures powerUpActive == old(powerUpActive) && powerUpActivationTime == old(powerUpActivationTime)
    {
      placed := false;
      if ShouldPowerUpSpawn(now, cfg) {
        ghost var cells := PowerupCells(boundary, draws);
        var n := 0;
        while !placed && n < |draws|
          invariant 0 <= n <= |draws|
          invariant placed ==> 1 <= n && (row, col) == cells[n - 1] && (row, col) !in snake.body
          invariant placed ==> kind == draws[n - 1].2 % 2 + 1
          invariant forall j :: 0 <= j < (if placed then n - 1 else n) ==> cells[j] in snake.body
          invariant initialPowerUpSpawned == old(initialPowerUpSpawned)
          invariant isPowerUpSpawned == old(isPowerUpSpawned)
          invariant powerUpActive == old(powerUpActive)
          invariant powerUpActivationTime == old(powerUpActivationTime)
        {
          row := draws[n].0 % (boundary.0 - 4) + 4;
          col := draws[n].1 % (boundary.1 - 1) + 1;
          kind := draws[n].2 % 2 + 1;
          n := n + 1;
          var hit := CheckCollision();
          placed := !hit;
        }
        if placed {
          FirstFreeUnique(cells, snake.body, n - 1);
          if !initialPowerUpSpawned {
            initialPowerUpSpawned := true;
          }
          isPowerUpSpawned := true;
        } else {
          FirstFreeUnique(cells, snake.body, n);
        }
      }
    }
  }

  /** With powerups disabled nothing spawns; after the first spawn, none
      spawns while one is on the board or its effect is running. */
  lemma SpawnGate(p: Powerups, now: int, cfg: Config)
    ensures !cfg.enablePowerups ==> !p.ShouldPowerUpSpawn(now, cfg)
    ensures p.initialPowerUpSpawned && (p.isPowerUpSpawned || p.powerUpActive) ==> !p.ShouldPowerUpSpawn(now, cfg)
    ensures cfg.enablePowerups && p.col == -1 && !p.initialPowerUpSpawned ==> p.ShouldPowerUpSpawn(now, cfg)
    ensures p.initialPowerUpSpawned && !p.RespawnPowerUpTimer(now, cfg) ==> !p.ShouldPowerUpSpawn(now, cfg)
    ensures (cfg.enablePowerups && p.initialPowerUpSpawned && !p.powerUpActive && !p.isPowerUpSpawned &&
             p.RespawnPowerUpTimer(now, cfg)) ==> p.ShouldPowerUpSpawn(now, cfg)
  {
  }

  /** Expiry and the respawn timer only turn on as time passes, and with a
      non-negative cooldown the respawn timer implies expiry. */
  lemma TimersAreMonotone(p: Powerups, now: int, later: int, cfg: Config)
    requires now <= later
    ensures p.PowerUpExpired(now, cfg) ==> p.PowerUpExpired(later, cfg)
    ensures p.RespawnPowerUpTimer(now, cfg) ==> p.RespawnPowerUpTimer(later, cfg)
    ensures cfg.powerupSpawnTime >= 0 && p.RespawnPowerUpTimer(now, cfg) ==> p.PowerUpExpired(now, cfg)
  {
  }

  /** The scoreboard's counters; `highScore` stands for the session-wide
      high score the source holds by reference. */
  class ScoreBoard {
    var currentScore: int
    var highScore: int

    ghost predicate Valid()
      reads this
    {
      0 <= currentScore <= highScore
    }

    constructor (hs: int)
      ensures currentScore == 0 && highScore == hs
      ensures hs >= 0 ==> Valid()
    {
      currentScore, highScore := 0, hs;
    }

    /** One food eaten: the score goes up by one and the high score follows
        it when passed. */
    method ScoreEvent()
      modifies this
      ensures currentScore == old(currentScore) + 1
      ensures highScore >= old(highScore) && highScore >= currentScore
      ensures highScore == old(highScore) || highScore == currentScore
      ensures old(Valid()) ==> Valid()
    {
      currentScore := currentScore + 1;
      if currentScore > highScore {
        highScore := currentScore;
      }
    }
  }

  class Menu {
    const menuText: seq<string>
    const menuOptions: seq<string>
    const maxCursorPosition: int
    var cursorPosition: int

    ghost predicate Valid()
      reads this
    {
      maxCursorPosition == |menuOptions| &&
      (maxCursorPosition >= 1 ==> 1 <= cursorPosition <= maxCursorPosition)
    }

    constructor (text: seq<string>, options: seq<string>)
      ensures menuText == text && menuOptions == options
      ensures maxCursorPosition == |options| && cursorPosition == 1
      ensures Valid()
    {
      menuText, menuOptions := text, options;
      maxCursorPosition := |options|;
      cursorPosition := 1;
    }

    method MoveCursor(offset: int)
      modifies this
      ensures cursorPosition == Cursor.MovedCursor(old(cursorPosition), offset, maxCursorPosition)
      ensures old(Valid()) ==> Valid()
    {
      var toPosition := cursorPosition + offset;
      if toPosition > 0 && toPosition <= maxCursorPosition {
        cursorPosition := toPosition;
      }
    }

    /** The selection is always an option number when there are options. */
    function GetSelection(): (r: int)
      reads this
      requires Valid()
      ensures |menuOptions| >= 1 ==> 1 <= r <= |menuOptions|
    {
      cursorPosition
    }

    /** The length of the longest line over options and header, 0 when
        both are empty. */
    method GetLongestStringLength() returns (r: int)
      ensures r >= 0
      ensures forall s :: s in menuOptions ==> |s| <= r
      ensures forall s :: s in menuText ==> |s| <= r
      ensures r == 0 || exists s :: (s in menuOptions || s in menuText) && |s| == r
    {
      r := 0;
      var i := 0;
      while i < |menuOptions|
        invariant 0 <= i <= |menuOptions| && r >= 0
        invariant forall j :: 0 <= j < i ==> |menuOptions[j]| <= r
        invariant r == 0 || exists j :: 0 <= j < i && |menuOptions[j]| == r
      {
        if |menuOptions[i]| > r {
          r := |menuOptions[i]|;
        }
        i := i + 1;
      }
      i := 0;
      while i < |menuText|
        invariant 0 <= i <= |menuText| && r >= 0
        invariant forall s :: s in menuOptions ==> |s| <= r
        invariant forall j :: 0 <= j < i ==> |menuText[j]| <= r
        invariant r == 0 || (exists s :: s in menuOptions && |s| == r) ||
                  exists j :: 0 <= j < i && |menuText[j]| == r
      {
        if |menuText[i]| > r {
          r := |menuText[i]|;
        }
        i := i + 1;
      }
    }
  }
}
