# Snake environment, modelled in Dafny

This project models the simulation engine of a small snake game that serves
as a reinforcement-learning environment. The engine is the class
`SnakeGameAI` in `env.py`. An agent calls `step` with an action index 0..3
and gets back an encoded state vector, a reward and a done flag. `reset`
starts a new episode. `get_game_state` encodes the state as the 9-slot
vector that the agent's network reads.

Files:

- `wrappers.dfy`: module `Wrappers`, with `Option` and `Result`.
- `game.dfy`: module `SnakeGame`, the engine as values. It holds:
  - the state of an episode (`Game`);
  - the action table (`DecodeAction`);
  - the direction rule (`Turn`) and the one-cell move (`Move`);
  - the game-over test (`Terminal`);
  - one step (`Transition`, and `StepSpec` with the invalid-action error);
  - the state encoder (`Encode`);
  - the invariant of reachable states (`WellFormed`);
  - a driver's run of many steps (`Run`).
- `properties.dfy`: module `GameProperties`, lemmas about those functions.
- `env.dfy`: module `SnakeEnv`, the class `SnakeGameAI`. Its fields are the
  source's fields. `Reset` and `Step` update them in place. `Step` keeps the
  source's sequence of guarded assignments, its list insert and pop, and
  its loop over `snake_body[1:]`. Each method is proved against the
  functions of `SnakeGame` through `Snapshot()`, the fields read as a
  `Game` value. Each keeps the class invariant `Valid()`.

The random fruit draws (`random.randrange(1, n // 10) * 10` on each axis)
are parameters. A precondition `FruitInRange` requires each drawn value to
be `10 * k` with `1 <= k < n / 10`. `Step` receives the cell the draw would
return; it uses that cell only when the fruit is eaten, as the source does.

The model follows the code as written, including where it departs from
what a reader of the game might expect:

- The step reward is only ever -10 (game over) or +1 (survived). The 10
  points for a fruit go to `score`, never into the reward. So a step that
  eats and survives returns 1, not 11.
- A respawned fruit is not checked against the snake's body. It can land on
  the snake, and so can the first fruit.
- Segments repeat only after a step that returned done. While no step has
  returned done, every segment is on the board and no two share a cell
  (`OnBoardAndDistinct`), provided the board is at least 110 by 60. On a
  narrower board the start cell (100,50) is already off the board, so the
  first step always returns done. After a self-collision the head lies on
  another segment. The engine never resets by itself, so further steps are
  possible and are modelled.
- `reset` returns nothing.
- An invalid action index fails because the lookup in the action table
  fails. That happens before any field is touched.

## Model

The table uses these predicates of `SnakeGame`, which carry no contract of
their own:

- `OnGrid`: both coordinates are multiples of 10.
- `Adjacent`: 10 apart along exactly one axis.
- `FruitInRange`: a cell the fruit draw of env.py:31-34 and 80-83 can return.
- `OutOfBounds`: the bounds test of env.py:89-94.
- `Terminal`: the game-over test of env.py:89-100. The head is out of bounds
  or equals a segment of `snake_body[1:]`.
- `WellFormed`: the reachable-state invariant, spelled out in the
  `TransitionKeepsWellFormed` row.
- `OnBoardAndDistinct`: every segment is within the bounds and no two
  segments are equal.
- `NoStepDone`: no step of a run returns done.

| member | source | states |
|---|---|---|
| `SnakeGame.DirIndex` | env.py:44 | Each direction's index lies in 0..3. The same index orders the one-hot slots of env.py:110-118. |
| `SnakeGame.DecodeAction` | env.py:44-45 | The lookup gives a direction exactly for indices 0..3. That direction's index is the action. Every other index has no direction. |
| `SnakeGame.Opposite` | env.py:48-55 | The direction the reversal guard of each requested direction tests. It is never the direction itself, and a move in it undoes a move in the direction. |
| `GameProperties.OppositeInvolutive` | env.py:48-55 | The reversal guards pair the directions: the opposite of the opposite is the direction itself. |
| `SnakeGame.Turn` | env.py:47-55 | The new direction is never the opposite of the current one. It is the requested direction unless that is the exact opposite, and then the current one. |
| `SnakeGame.Move` | env.py:57-65 | The head moves to a neighbouring cell: 10 units along one axis, the other coordinate unchanged. The sign follows the direction (UP lowers y, DOWN raises y, LEFT lowers x, RIGHT raises x). It stays on the 10-grid. |
| `SnakeGame.OneHot` | env.py:110-118 | Four slots in the order UP, DOWN, LEFT, RIGHT. Exactly the current direction's slot is 1. |
| `SnakeGame.Encode` | env.py:108-157 | A vector of length 9. Slots 0-3 are the one-hot direction. Slots 4-5 are the fruit minus the head. Slot 6 is 1 exactly when the game-over test holds for the next cell in the current direction, with the body not shifted. Slots 7-8 are 0. |
| `SnakeGame.Initial` | env.py:25-40 | The reset state is well formed: 3 segments, score 0, and the drawn fruit. |
| `SnakeGame.Transition` | env.py:47-106 | One step with a decoded direction. The direction follows the reversal rule and `changeTo` is the request. The head is one move from the old head. The new body is the new head followed by the old body if the fruit was eaten, and otherwise by the old body without its last element. Eating adds 1 segment, adds 10 to the score and respawns the fruit; otherwise length, score and fruit are unchanged. `done` holds exactly when the head is off the board or on a later segment. The reward is -10 when done and 1 otherwise. The returned vector encodes the new state. |
| `SnakeGame.StepSpec` | env.py:42-45 | A step fails with `InvalidAction` exactly when the index is outside 0..3. Otherwise the request it records has that index. |
| `GameProperties.ActionRoundTrip` | env.py:44 | Each direction's index decodes back to that direction. |
| `GameProperties.MoveBack` | env.py:57-65 | A move followed by a move in the opposite direction returns to the start cell. |
| `GameProperties.MoveInjective` | env.py:57-65 | Different directions lead from one cell to different cells. |
| `GameProperties.TransitionKeepsWellFormed` | env.py:57-84 | Every step keeps the reachable-state invariant. That invariant is: at least 3 segments; the head first; the head one move past the second segment in the current direction; all segments on the 10-grid; consecutive segments neighbours; the fruit on a drawable cell; score equal to 10 per segment beyond 3. |
| `GameProperties.NeckNeverEntered` | env.py:47-68 | Thanks to the reversal rule, the new head never lands on the segment just behind the old head. |
| `GameProperties.StraightStepDone` | env.py:57-100 | A step that keeps the current direction ends the episode exactly when the next cell is off the board or on a segment that survives the step. That is any later segment if the fruit is eaten, and any later segment except the tail otherwise. |
| `GameProperties.DangerFlagSound` | env.py:123-146 | If the danger-straight slot is 0, a step that keeps the current direction does not end the episode, and it earns reward 1. |
| `GameProperties.DangerFlagMissesOnlyTail` | env.py:138-146 | If the danger-straight slot is 1 and such a step still survives, the next cell was the tail and held no fruit. The flag errs only there. |
| `GameProperties.RunKeepsWellFormed` | env.py:42-106 | Any sequence of steps keeps the invariant and the board size. It never shortens the snake or lowers the score. |
| `GameProperties.ReachableFromReset` | env.py:25-106 | Every state reachable from a reset has at least 3 segments, all on the 10-grid, with the head first. Its fruit is on a drawable cell, and its score is 10 times the segments grown. |
| `GameProperties.SurvivingStepKeepsOnBoardAndDistinct` | env.py:57-100 | From a well-formed state with all segments on the board and distinct, a step that does not return done keeps all segments on the board and distinct. |
| `GameProperties.RunKeepsOnBoardAndDistinct` | env.py:42-106 | A run of steps none of which returns done keeps all segments on the board and distinct. |
| `GameProperties.InitialOnBoardAndDistinct` | env.py:25-28 | The reset body is on the board and distinct exactly when the board is at least 110 wide and 60 high. |
| `GameProperties.ActiveEpisodeOnBoardAndDistinct` | env.py:25-106 | From a reset on a board at least 110 by 60, every state reached while no step returned done has all segments on the board and no two segments equal. |
| `GameProperties.NarrowBoardFirstStepDone` | env.py:25-100 | On a board narrower than 110, the first step after a reset returns done for every action 0..3. |
| `GameProperties.FirstStepScenario` | env.py:42-106 | On the 720 by 480 board, action 3 right after a reset (fruit elsewhere) gives the body (110,50), (100,50), (90,50), reward 1, not done. |
| `GameProperties.WallScenario` | env.py:89-96 | Moving right from x = 710 on a 720-wide board gives head (720,50), done, reward -10. |
| `SnakeEnv.SnakeGameAI.constructor` | env.py:7-23 | Stores the board size, then resets. The result is valid and equals the reset state. |
| `SnakeEnv.SnakeGameAI.Reset` | env.py:25-40 | Sets head (100,50), body (100,50), (90,50), (80,50), the drawn fruit, direction and `changeTo` RIGHT, score 0. The result is valid. |
| `SnakeEnv.SnakeGameAI.Step` | env.py:42-106 | For an invalid index: fails with `InvalidAction` and changes no field. Otherwise: the new fields and the returned (vector, reward, done) are those of `Transition` on the old fields. The class invariant is kept either way. |
| `SnakeEnv.SnakeGameAI.ChangeDirection` | env.py:47-55 | The four guarded assignments leave the direction given by the reversal rule. |
| `SnakeEnv.SnakeGameAI.MoveHead` | env.py:57-65 | The four guarded updates move the head one cell in the current direction. |
| `SnakeEnv.SnakeGameAI.CheckGameOver` | env.py:86-100 | The bounds test and the loop over later segments set game over exactly when the game-over test holds. The reward is then -10, and 0 otherwise. No field changes. |
| `SnakeEnv.SnakeGameAI.GetGameState` | env.py:108-157 | The 9-slot layout of `Encode` over the current fields. It is a function, so no field changes. |

## Left out

- Drawing with pygame (`__init__`'s display, caption, clock and colours, and `render` and `show_score` with its 15 Hz tick): presentation only, with no effect on the game state.
- The random source: the fruit cells are inputs, constrained to the cells `randrange` can produce.
- The `ValueError` that `randrange` raises on a board narrower or lower than 20: no fruit cell satisfies the precondition on such a board, so the model has no state for it.
- The default board size 720 by 480: the constructor takes both sizes explicitly.
- numpy: the state vector is a `seq<int>`, not a float array.
- Action values that are not integers (a numpy integer or `True` would also hit the table): actions are modelled as `int`.
- `model.py`: the Q-networks are layers from torch and floating-point arithmetic, outside the engine.
- `SnakeEnv.SnakeGameAI.Step`: requires the class invariant `Valid()`, which the source does not check. It holds after every constructor, `Reset` and `Step`, so every reachable object meets it.
- `SnakeGame.Run`: a driver loop that stops at the first invalid action, standing in for the exception reaching the caller. The training loop itself is not part of this model.
