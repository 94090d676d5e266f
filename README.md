# Snake game logic in Dafny

This project models the game-logic layer of the ASCII Snake terminal game.
The repository holds three revisions of that layer, and each is modelled as
its own module:

- `GameCode` (gamecode.dfy) models GameCode.hpp. The snake there holds its
  screen size. Food and powerups hold a reference to the snake. Powerups
  carry their own gate and timers. The scoreboard follows a session high
  score. The menu has a bounded cursor.
- `SnakeUtils` (snakeutils.dfy) models SnakeUtils.hpp. The snake has no
  screen reference. The collision tests are free functions that clip the
  screen size themselves. Food and powerups take the snake as an argument.
  The scoreboard only counts. The powerup effect lives in `playGame`'s
  locals, which are modelled as the value `Effect`.
- `MainGame` (maingame.dfy) models main_game.cpp, the earlier square-grid
  revision. It has no reversal guard and no self-collision flag, and food
  is placed by one unchecked draw.

Three shared modules hold the specification functions the classes are
proved against:

- `Geometry`: cells, headings, the move and grow rules, the guarded heading
  change, the border and playfield, and rejection-sampled placement.
- `Speed`: C++ truncating division and the speed ramp on eating food.
- `Cursor`: the bounded menu cursor.

The snake is a class with a `seq<(int, int)>` body, head first, a heading
character and the previous tail cell. In every revision `Move` and `Grow`
are stated against `Geometry.Moved` and `Geometry.Grown`. In GameCode and
SnakeUtils, `ChangeDirection` is stated against `Geometry.Turned`. In
MainGame it has no reversal guard and sets the heading unconditionally
(`MainGame.Snake.ChangeDirection`). The invariant `WellFormed()` means at
least one segment, a w/a/s/d heading, and consecutive segments one step
apart. `Move` and `Grow` keep it in every revision. In every revision,
`ChangeDirection` keeps it only for a w/a/s/d key: the guarded rule also
takes any other character as the heading. Each constructor establishes it
only for a w/a/s/d start heading. Each `playGame` passes only w/a/s/d to
`changeDirection` (GameCode.hpp:872, SnakeUtils.hpp:1232,
main_game.cpp:385).

In GameCode and SnakeUtils the gameplay globals become a `Config` value
with the source's defaults (`Defaults`). MainGame has no `Config`: its
only gameplay global is the `GAME_SPEED` delay of its tick loop
(main_game.cpp:36), which is not part of this model. The self-collision
flag and the high score are state and are passed or held explicitly.

The randomness and the clock of the source become parameters:
- `rand()` becomes a sequence of draws with one tuple per iteration of a
  spawn loop. A spawn method reports `placed == false` when the draws run
  out before a free cell appears.
- `time(NULL)` becomes a `now` argument.

Where the source leaves fields uninitialised, the model starts them as
follows:
- `Powerups` in GameCode.hpp: `type` and `powerUpActivationTime` start as 0,
  and `powerUpActive` starts as false.
- SnakeUtils.hpp: `type` starts as 0, and `playGame`'s start and completion
  times start as 0. Only the completion time is read before it is first
  written: the respawn test reads it on every tick after the first, and
  until an effect has ended it still holds its starting value.

Three behaviours of the code worth noting:

- Eating food moves the head onto the food and then grows the tail. The
  move has already taken the food cell, so the new segment goes behind the
  tail. A snake `[(5,5),(5,4),(5,3)]` heading right that eats food at
  (5,6) ends as `[(5,6),(5,5),(5,4),(5,3)]` (`Geometry.EatScenario`).
- The ramp does not clamp the new interval at the minimum. It only resets
  an interval that is already at or below the minimum. From 100 ms at 85
  percent with a 50 ms minimum, the interval goes 85, ..., 43 and only then
  50 (`Speed.RampScenario`, `Speed.DipLastsOneEvent`).
- When slow motion expires in SnakeUtils.hpp, the interval is halved with
  no clamp. It can end below MAX_SPEED (`SnakeUtils.ExpiryHasNoFloor`).
  GameCode.hpp does clamp on expiry (`GameCode.RestoredInterval`).

In SnakeUtils.hpp collecting a powerup clears `powerUpSpawned`, and the
cooldown is measured from the end of the previous effect. So a collected
powerup can be replaced on the next tick while its effect still runs, and
expiry then reads the replacement's type (`SnakeUtils.CollectReopensRespawn`,
`SnakeUtils.ReplacementDecidesExpiry`).

## Model

| member | source | states |
|---|---|---|
| Geometry.Offset | GameCode.hpp:373-394 | the unit step per heading: a=(0,-1), d=(0,1), w=(-1,0), s=(1,0); any other character gives (0,0); a heading's step goes to an adjacent cell |
| Geometry.Behind | GameCode.hpp:546-560 | the offset grow applies to the tail cancels the heading's step |
| Geometry.Moved | GameCode.hpp:396-407 | after a move the length is unchanged, each segment i >= 1 holds the old segment i-1, and the head is the old head plus the heading's step |
| Geometry.Grown | GameCode.hpp:536-564 | after a grow the length is one more, the old segments are unchanged, and for a heading the new tail is next to the old tail, on the side opposite to the heading (one step along the heading from the new tail is the old tail); for any other character it equals the old tail |
| Geometry.Turned | GameCode.hpp:411-420 | an exact reversal (w/s or a/d either way) keeps the heading; any other character, a repeat included, becomes the heading |
| Geometry.TurnedNeverReverses | GameCode.hpp:411-420 | the guarded rule never yields the reverse of the current heading and keeps w/a/s/d headings when given w/a/s/d |
| Geometry.MovedConnected | GameCode.hpp:396-407 | a move keeps every pair of consecutive segments one step apart |
| Geometry.GrownConnected | GameCode.hpp:546-563 | a grow keeps every pair of consecutive segments one step apart |
| Geometry.BorderLinesEnclosePlayfield | GameCode.hpp:750-772 | inside the drawn frame, a cell is on a border line exactly when it is outside the cleared playfield |
| Geometry.Candidate | GameCode.hpp:603-604 | one loop iteration's cell lies in rows 4..b.0-1 and columns 1..b.1-1 whenever the boundary is big enough |
| Geometry.FoodCells | GameCode.hpp:601-606 | the food loop's candidates, one per pair of draws, in order |
| Geometry.PowerupCells | GameCode.hpp:728-732 | the powerup loop's candidates, one per triple of draws, in order |
| Geometry.FirstFree | GameCode.hpp:602-605 | the number of rejected candidates: every earlier one is on the body, and the one it stops at is not |
| Geometry.PlacementIsSafe | GameCode.hpp:601-606 | the placed cell is in the playfield and on no segment, and a cell is placed whenever some draw gives a free cell |
| Geometry.SingleSegmentMoves | GameCode.hpp:371-407 | a one-segment snake heading right at (10,10) moves to (10,11) |
| Geometry.EatScenario | GameCode.hpp:822-831 | move onto food then grow: `[(5,5),(5,4),(5,3)]` becomes `[(5,6),(5,5),(5,4),(5,3)]` |
| Speed.TruncDiv | GameCode.hpp:681-683 | C++ division: the magnitude is the quotient of the magnitudes, non-negative when the operands' signs agree and non-positive when they differ |
| Speed.TruncDivNonNegative | GameCode.hpp:833-835 | for a non-negative dividend and a positive divisor, C++ division equals Dafny's |
| Speed.TruncDivOfMultiple | GameCode.hpp:665-689 | multiplying the interval by a non-zero factor and dividing by it again gives it back |
| Speed.RampedInterval | GameCode.hpp:833-835 | an interval at or below MAX_SPEED becomes MAX_SPEED; a slower one is scaled by the multiplier percent and never grows |
| Speed.DipLastsOneEvent | SnakeUtils.hpp:1206-1208 | an interval that dips below MAX_SPEED is set back to MAX_SPEED by the next food event |
| Speed.FloorIsStable | GameCode.hpp:833-835 | an interval at MAX_SPEED stays there through any number of food events |
| Speed.RampReachesFloor | SnakeUtils.hpp:1206-1208 | with a multiplier below 100 percent, enough food events bring any non-negative interval to exactly MAX_SPEED |
| Speed.RampScenario | GameCode.hpp:833-835 | from 100 ms at 85 percent with a 50 ms floor: 85 after one event, 43 after five, 50 after six |
| Cursor.MovedCursor | GameCode.hpp:112-117 | the cursor moves by the offset exactly when it lands in 1..max; otherwise it stays |
| Cursor.CursorStaysOnOptions | SnakeUtils.hpp:313-318 | a cursor on an option stays on an option through any run of moves |
| Cursor.NoOptionsNoMove | SnakeUtils.hpp:313-318 | with no options the cursor never moves |
| GameCode.SetBoundary | GameCode.hpp:571-576 | the boundary is the screen size less one in each dimension |
| GameCode.Snake.constructor | GameCode.hpp:361-368 | one segment at the start cell, the given heading, the previous tail at the start cell, the given display size |
| GameCode.Snake.Move | GameCode.hpp:371-407 | the new body is `Moved` of the old body and heading, the previous tail is the old last segment, and the heading and `WellFormed` are kept |
| GameCode.Snake.ChangeDirection | GameCode.hpp:411-420 | the heading becomes `Turned(old heading, new)`; the body and previous tail are unchanged |
| GameCode.Snake.Grow | GameCode.hpp:536-564 | the new body is `Grown` of the old body and heading; nothing else changes and `WellFormed` is kept |
| GameCode.Snake.CheckSelfCollision | GameCode.hpp:475-494 | true exactly when the flag is on and the head equals some segment i >= 1 |
| GameCode.Snake.CheckBoundaryCollision | GameCode.hpp:504-516 | true exactly when the head is on row 3, row size.0, column 0 or column size.1 of the constructor's size |
| GameCode.BoundaryDependsOnConstructorSize | GameCode.hpp:504-516 | with the clipped size, a hit inside the drawn frame means leaving the playfield; with the unclipped size, the drawn bottom border is not a hit |
| GameCode.Food.constructor | GameCode.hpp:592-598 | the food starts at (-1, -1) attached to the snake |
| GameCode.Food.CheckCollision | GameCode.hpp:611-622 | true exactly when the food cell is a segment of the snake |
| GameCode.Food.Spawn | GameCode.hpp:601-607 | the food is placed at the first candidate not on the snake; if placed, it is on no segment and in the playfield |
| GameCode.RestoredInterval | GameCode.hpp:681-685 | the interval after slow motion: the quotient when above MAX_SPEED, else MAX_SPEED, so never below MAX_SPEED |
| GameCode.RestoreUndoesSlowDown | GameCode.hpp:665-689 | deactivating after activating gives back the interval, or MAX_SPEED when the interval was at or below it |
| GameCode.SlowMotionScenarios | GameCode.hpp:679-689 | from 50 ms, slow motion gives 100 ms and expiry gives 50 ms; with one food event between, expiry computes 42 and clamps to 50 |
| GameCode.Powerups.constructor | GameCode.hpp:631-642 | the powerup starts at (-1, -1), inactive, not yet spawned, with the shared on-board flag as given |
| GameCode.Powerups.CheckCollision | GameCode.hpp:648-659 | true exactly when the powerup cell is a segment of the snake |
| GameCode.Powerups.ActivatePowerUp | GameCode.hpp:665-671 | type 1 multiplies the interval by the increment, type 2 turns self-collision off, others change neither; the effect is active and stamped with now |
| GameCode.Powerups.DeactivatePowerUp | GameCode.hpp:679-689 | type 1 restores the interval to `RestoredInterval` (at least MAX_SPEED), type 2 turns self-collision on; the effect is inactive |
| GameCode.TimersAreMonotone | GameCode.hpp:695-705 | expiry and the respawn timer stay true as time passes, and with a non-negative cooldown the respawn timer implies expiry |
| GameCode.Powerups.PowerUpExpired | GameCode.hpp:695-697 | true when at least POWERUP_TIME seconds have passed since activation; its contract is stated in `GameCode.TimersAreMonotone` |
| GameCode.Powerups.RespawnPowerUpTimer | GameCode.hpp:703-705 | true when at least POWERUP_TIME + POWERUP_SPAWN_TIME seconds have passed since activation; its contract is stated in `GameCode.TimersAreMonotone` |
| GameCode.Powerups.ShouldPowerUpSpawn | GameCode.hpp:711-720 | the spawn gate; its contract is stated in `GameCode.SpawnGate` |
| GameCode.SpawnGate | GameCode.hpp:711-720 | with powerups disabled nothing spawns; before the first spawn with column -1 one spawns; after the first spawn, none spawns while one is on the board or active or before the respawn timer has run out, and one spawns once the timer has run out with powerups enabled, no effect active and none on the board |
| GameCode.Powerups.Spawn | GameCode.hpp:726-738 | when the gate refuses nothing changes; otherwise the powerup takes the first free candidate, with type 1 or 2, on no segment and in the playfield, and both spawn flags are set so the gate refuses at any time |
| GameCode.ScoreBoard.constructor | GameCode.hpp:258 | the score starts at 0 with the given high score |
| GameCode.ScoreBoard.ScoreEvent | GameCode.hpp:272-277 | the score goes up by one; the high score never decreases, is at least the score, and is the old high or the new score |
| GameCode.Menu.constructor | GameCode.hpp:100-102 | the maximum cursor position is the number of options and the cursor starts at 1 |
| GameCode.Menu.MoveCursor | GameCode.hpp:112-117 | the cursor becomes `MovedCursor` of the old cursor and stays on an option |
| GameCode.Menu.GetSelection | GameCode.hpp:140 | the selection is an option number whenever there are options |
| GameCode.Menu.GetLongestStringLength | GameCode.hpp:219-231 | the result is at least every option and header length, and is one of them or 0 |
| SnakeUtils.SetBoundary | SnakeUtils.hpp:75-80 | the boundary is the screen size less one in each dimension |
| SnakeUtils.Snake.constructor | SnakeUtils.hpp:104-110 | one segment at the start cell, the given heading, the previous tail at the start cell |
| SnakeUtils.Snake.Move | SnakeUtils.hpp:115-152 | the new body is `Moved` of the old body and heading, the previous tail is the old last segment, and `WellFormed` is kept |
| SnakeUtils.Snake.ChangeDirection | SnakeUtils.hpp:157-167 | the heading becomes `Turned(old heading, new)`; the body is unchanged |
| SnakeUtils.Snake.Grow | SnakeUtils.hpp:188-216 | the new body is `Grown` of the old body and heading, and `WellFormed` is kept |
| SnakeUtils.CheckBodyCollision | SnakeUtils.hpp:566-589 | true exactly when the flag is on and the head equals some segment i >= 1 |
| SnakeUtils.CheckBoundaryCollision | SnakeUtils.hpp:599-611 | true exactly when the head is on row 3, row size.0-1, column 0 or column size.1-1 |
| SnakeUtils.CellOnBody | SnakeUtils.hpp:240-250 | true exactly when the cell is a segment of the body |
| SnakeUtils.Food.constructor | SnakeUtils.hpp:227-228 | the food starts at (-1, -1) |
| SnakeUtils.Food.CheckCollision | SnakeUtils.hpp:240-250 | true exactly when the food cell is a segment of the snake |
| SnakeUtils.Food.Spawn | SnakeUtils.hpp:230-237 | the food takes the first candidate not on the snake; if placed, it is on no segment, in the playfield and on no border line |
| SnakeUtils.SpawnCellIsSafe | SnakeUtils.hpp:230-237 | a cell placed for the clipped screen size is neither a boundary hit nor on the snake |
| SnakeUtils.Powerups.constructor | SnakeUtils.hpp:261-263 | the powerup starts at (-1, -1) |
| SnakeUtils.Powerups.CheckCollision | SnakeUtils.hpp:272-283 | true exactly when the powerup cell is a segment of the snake |
| SnakeUtils.Powerups.Spawn | SnakeUtils.hpp:265-271 | the powerup takes the first free candidate; if placed, its type is 1 or 2 and it is on no segment and in the playfield |
| SnakeUtils.ScoreBoard.constructor | SnakeUtils.hpp:432-450 | the score starts at 0 |
| SnakeUtils.ScoreBoard.ScoreEvent | SnakeUtils.hpp:439-442 | the score goes up by one |
| SnakeUtils.InitialEffect | SnakeUtils.hpp:1112-1125 | the game starts at INITIAL_SPEED with no effect running and no powerup on the board |
| SnakeUtils.EatFood | SnakeUtils.hpp:1206-1208 | eating food applies the ramp to the interval and changes nothing else |
| SnakeUtils.Collect | SnakeUtils.hpp:1158-1172 | while an effect runs, or for another type, nothing changes; otherwise type 1 doubles the interval, type 2 turns self-collision off, and the effect starts at now |
| SnakeUtils.Expire | SnakeUtils.hpp:1210-1220 | an effect ends only once strictly more than POWERUP_TIME has passed; then type 1 halves the interval by truncating division, type 2 turns self-collision on, and the completion time is now |
| SnakeUtils.ExpiryIsStrict | SnakeUtils.hpp:1213-1214 | exactly POWERUP_TIME after the start the effect still runs; one second later it has ended |
| SnakeUtils.SlowMotionRoundTrip | SnakeUtils.hpp:1160-1216 | slow motion collected and expired with no food between gives back exactly the starting interval |
| SnakeUtils.NoCollisionRoundTrip | SnakeUtils.hpp:1166-1217 | the no-collision powerup leaves the interval alone and, on expiry, turns self-collision on even if it was off |
| SnakeUtils.ExpiryHasNoFloor | SnakeUtils.hpp:1206-1216 | slow motion at 50 ms, one food event, then expiry leaves 45 ms, below MAX_SPEED |
| SnakeUtils.RespawnDue | SnakeUtils.hpp:1142 | the respawn test of one tick; its contract is stated in `SnakeUtils.RespawnGate` |
| SnakeUtils.RespawnGate | SnakeUtils.hpp:1142-1144 | with row -1 a powerup spawns; otherwise none spawns while the spawned flag is set (so a spawn blocks the next until a collection), and with it clear one spawns exactly when the clock of the previous tick is more than POWERUP_SPAWN_TIME past the completion time |
| SnakeUtils.CollectReopensRespawn | SnakeUtils.hpp:1142-1172 | a collection clears the spawned flag, so once the cooldown since the last completion has passed a respawn is due on the next tick |
| SnakeUtils.ExpiryStartsCooldown | SnakeUtils.hpp:1142-1220 | after an expiry at now, with no powerup spawned, a respawn is due exactly when the previous tick's clock is more than POWERUP_SPAWN_TIME past now |
| SnakeUtils.ReplacementDecidesExpiry | SnakeUtils.hpp:1142-1220 | slow motion collected at second 1000 with no earlier completion is replaced on the next tick; a type-2 replacement makes expiry keep the doubled interval |
| SnakeUtils.Menu.constructor | SnakeUtils.hpp:301-303 | the maximum cursor position is the number of options and the cursor starts at 1 |
| SnakeUtils.Menu.MoveCursor | SnakeUtils.hpp:313-318 | the cursor becomes `MovedCursor` of the old cursor and stays on an option |
| SnakeUtils.Menu.GetSelection | SnakeUtils.hpp:341 | the selection is an option number whenever there are options |
| SnakeUtils.Menu.GetLongestStringLength | SnakeUtils.hpp:412-425 | the result is at least every option and header length, and is one of them or 0 |
| MainGame.SetBoundary | main_game.cpp:143-150 | the boundary is the smaller screen dimension less one |
| MainGame.Snake.constructor | main_game.cpp:45-50 | one segment at the start cell, the given heading, the previous tail at the start cell |
| MainGame.Snake.Move | main_game.cpp:53-87 | the new body is `Moved` of the old body and heading, the previous tail is the old last segment, and `WellFormed` is kept |
| MainGame.Snake.ChangeDirection | main_game.cpp:91-94 | the heading becomes the new character unconditionally |
| MainGame.Snake.Grow | main_game.cpp:112-138 | the new body is `Grown` of the old body and heading, and `WellFormed` is kept |
| MainGame.CheckBoundaryCollision | main_game.cpp:364-374 | true exactly when the head is on row 0, row b, column 0 or column 2b, where b is the boundary |
| MainGame.CheckSelfCollision | main_game.cpp:345-362 | true exactly when the head equals some segment i >= 1, with no flag |
| MainGame.SpawnCell | main_game.cpp:162-166 | the spawned cell is in rows 1..b-1 and columns 1..2b-1, never on the border, when b >= 2 |
| MainGame.Food.constructor | main_game.cpp:159-160 | the food starts at (-1, -1) |
| MainGame.Food.Spawn | main_game.cpp:162-166 | the food takes the cell of one row draw and one column draw, with no test against the snake |
| MainGame.Food.CheckCollision | main_game.cpp:169-177 | true exactly when the food cell is a segment of the snake |
| MainGame.SpawnIsNeverOnBorder | main_game.cpp:162-166 | a spawned cell is inside the square field, and a head there is no boundary hit |
| MainGame.SpawnMayOverlapBody | main_game.cpp:162-166 | with boundary 5 and zero draws the food lands on (1, 1), and so on any body whose head is there |
| MainGame.ReversalKills | main_game.cpp:91-94 | for any body of three or more segments whose head was reached from the second segment by heading h, moving by the heading opposite to h puts the head on a body segment |
| MainGame.ReversalScenario | main_game.cpp:91-94 | a three-segment snake heading right, turned left and moved, has its head on its second segment |

## Left out

- The terminal display surface (`setChar`, `draw`, `clearGrid`, `findCenter`) is not part of this model, because its definition is not in the repository's files. Everything that only renders is left out as well: `drawSnake`, `createGrid`, the menus' and scoreboards' `pushToTerminal`, and `updateTerminal`.
- The menu screens (`pauseMenu`, the input menus and the editor menus) are left out. They are input loops over the globals.
- The `playGame` tick loop is modelled only through the operations it calls: the ramp, the powerup transitions, the spawns and the collision tests. The loop itself, its busy-wait input poll (`getInput`, `usleep`), `srand` and `time(NULL)` are left out; draws and times are parameters instead.
- `ScoreBoard::setSpeed` and `current_speed` are left out. They exist only to be displayed.
- Speed.RampedInterval: computes `speed * mult / 100` with C++ integer truncation instead of the source's `int(speed * (float(mult) / 100.0))`. Floating-point rounding can make the two differ by one.
- No operation models 32-bit `int` overflow. The integers are unbounded.
- GameCode.Food.Spawn, GameCode.Powerups.Spawn, SnakeUtils.Food.Spawn and SnakeUtils.Powerups.Spawn: the source loops until a free cell appears, and may loop forever when the snake fills the playfield. The model takes a finite sequence of draws and reports `placed == false` when they run out. The contracts state more only when boundary.0 > 4 and boundary.1 > 1; smaller boundaries make the source divide by zero or by a negative number.
- MainGame.SpawnCell and MainGame.Food.Spawn: require a boundary other than 1. With boundary 1 the source's `rand() % (boundary - 1)` (main_game.cpp:164) divides by zero.
- SnakeUtils.RespawnDue: the source reads `powerUpCompleteTime` before any write until the first effect ends (SnakeUtils.hpp:1123, 1142), which is undefined behaviour. The model starts it at 0 (`InitialEffect`); the lemmas about the test hold for any value it holds. `currentTime` is first read on the second tick, after the first tick has set it, and is the `lastTickTime` parameter.
- Reference aliasing is modelled only through fields. GameCode's `high_score` is held by reference, and so is `isPowerUpSpawned`, which is shared with `playGame`. The model keeps each as a field of the object and does not model the referenced variable outside it.
- main.cpp (a stub class and a sizing prompt) and `main()` in main_game.cpp (terminal sizing and the start menu) are left out. They are terminal I/O only.
