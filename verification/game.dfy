/**
 * The snake simulation as values: the state of one episode, the action
 * decoder, the direction rule, the one-cell move, the transition of one
 * step with its reward and termination flag, and the 9-slot encoding of a
 * state handed to the learning agent.
 *
 * The imperative class in module SnakeEnv is proved against these
 * functions; the lemmas in module GameProperties are about them.
 */
module SnakeGame {
  import opened Wrappers

  /** The grid quantum: every coordinate and every move is a multiple of it. */
  const CellSize: int := 10

  /** What eating a fruit adds to the score (not to the reward). */
  const FruitScore: int := 10

  /** The reward of a step that ends the episode. */
  const DeathReward: int := -10

  /** The reward of a step that does not end the episode. */
  const SurvivalReward: int := 1

  datatype Direction = Up | Down | Left | Right

  datatype Pos = Pos(x: int, y: int)

  /**
   * One episode's state: the board size, the head, the body (head first),
   * the fruit, the current direction, the last requested direction and the
   * score.
   */
  datatype Game = Game(
    width: int,
    height: int,
    head: Pos,
    body: seq<Pos>,
    fruit: Pos,
    direction: Direction,
    changeTo: Direction,
    score: int)

  /** What one step returns: the encoded new state, the reward, the done flag. */
  datatype Outcome = Outcome(state: seq<int>, reward: int, done: bool)

  /** A step's new state together with what it returns. */
  datatype Stepped = Stepped(game: Game, out: Outcome)

  /** The lookup of an unknown action index fails. */
  datatype StepError = InvalidAction(action: int)

  /** The agent's input of one step: an action index and the fruit to respawn if one is eaten. */
  datatype Input = Input(action: int, nextFruit: Pos)

  /** The table from action index to requested direction. */
  const ActionDict: map<int, Direction> := map[0 := Up, 1 := Down, 2 := Left, 3 := Right]

  /** The position of a direction in the action table and in the one-hot encoding. */
  function DirIndex(d: Direction): (i: int)
    ensures 0 <= i < 4
  {
    match d
    case Up => 0
    case Down => 1
    case Left => 2
    case Right => 3
  }

  /** Looks an action index up in the action table; an unknown index has no direction. */
  function DecodeAction(action: int): (r: Option<Direction>)
    ensures r.Some? <==> 0 <= action < 4
    ensures r.Some? ==> DirIndex(r.value) == action
  {
    if action in ActionDict then Some(ActionDict[action]) else None
  }

  /** The direction each reversal guard tests against: the same axis, the other sign. */
  function Opposite(d: Direction): (r: Direction)
    ensures r != d
    ensures forall p :: Move(Move(p, d), r) == p
  {
    match d
    case Up => Down
    case Down => Up
    case Left => Right
    case Right => Left
  }

  /**
   * The direction rule: the four guarded assignments run in order, each
   * taking the requested direction only when the current one is not its
   * opposite.
   */
  function Turn(current: Direction, requested: Direction): (r: Direction)
    ensures r != Opposite(current)
    ensures r == (if requested == Opposite(current) then current else requested)
  {
    var d1 := if requested == Up && current != Down then Up else current;
    var d2 := if requested == Down && d1 != Up then Down else d1;
    var d3 := if requested == Left && d2 != Right then Left else d2;
    if requested == Right && d3 != Left then Right else d3
  }

  function Dist(a: int, b: int): (r: nat)
    ensures r == a - b || r == b - a
  {
    if a < b then b - a else a - b
  }

  /** Two cells are neighbours: one cell apart along exactly one axis. */
  predicate Adjacent(p: Pos, q: Pos)
  {
    (p.x == q.x && Dist(p.y, q.y) == CellSize) || (p.y == q.y && Dist(p.x, q.x) == CellSize)
  }

  predicate OnGrid(p: Pos)
  {
    p.x % CellSize == 0 && p.y % CellSize == 0
  }

  /**
   * The cells a fruit can be drawn on: `randrange(1, n // 10) * 10` on each
   * axis, that is 10 * k with 1 <= k < n / 10.
   */
  predicate FruitInRange(p: Pos, width: int, height: int)
  {
    OnGrid(p) &&
    CellSize <= p.x <= (width / CellSize - 1) * CellSize &&
    CellSize <= p.y <= (height / CellSize - 1) * CellSize
  }

  /** Outside the board `[0, width - 10] x [0, height - 10]`. */
  predicate OutOfBounds(p: Pos, width: int, height: int)
  {
    p.x < 0 || p.x > width - CellSize || p.y < 0 || p.y > height - CellSize
  }

  /** A list without its first element, as the slice `[1:]` (empty for an empty list). */
  function Rest<T>(s: seq<T>): seq<T>
  {
    if |s| == 0 then [] else s[1..]
  }

  /** The new head of one cell's move in direction `d`. */
  function Move(p: Pos, d: Direction): (q: Pos)
    ensures Adjacent(p, q)
    ensures d == Up ==> q.y < p.y
    ensures d == Down ==> q.y > p.y
    ensures d == Left ==> q.x < p.x
    ensures d == Right ==> q.x > p.x
    ensures OnGrid(p) ==> OnGrid(q)
  {
    match d
    case Up => Pos(p.x, p.y - CellSize)
    case Down => Pos(p.x, p.y + CellSize)
    case Left => Pos(p.x - CellSize, p.y)
    case Right => Pos(p.x + CellSize, p.y)
  }

  /** The game-over test: the head has left the board or lies on a later segment. */
  predicate Terminal(g: Game)
  {
    OutOfBounds(g.head, g.width, g.height) || g.head in Rest(g.body)
  }

  /** The state `reset` builds, with the fruit drawn by the caller. */
  function Initial(width: int, height: int, fruit: Pos): (g: Game)
    requires FruitInRange(fruit, width, height)
    ensures WellFormed(g)
    ensures |g.body| == 3 && g.score == 0 && g.fruit == fruit
  {
    Game(width, height, Pos(100, 50), [Pos(100, 50), Pos(90, 50), Pos(80, 50)],
         fruit, Right, Right, 0)
  }

  /**
   * What every reachable state satisfies: at least three segments, the head
   * first, the head one move past the second segment in the current
   * direction, every segment on the grid, consecutive segments neighbours,
   * the fruit on a cell it can be drawn on, and ten points per segment
   * grown beyond the initial three.
   */
  ghost predicate WellFormed(g: Game)
  {
    |g.body| >= 3 &&
    g.body[0] == g.head &&
    g.body[0] == Move(g.body[1], g.direction) &&
    (forall i :: 0 <= i < |g.body| ==> OnGrid(g.body[i])) &&
    (forall i, j :: 0 <= i && j == i + 1 && j < |g.body| ==> Adjacent(g.body[i], g.body[j])) &&
    FruitInRange(g.fruit, g.width, g.height) &&
    g.score == FruitScore * (|g.body| - 3)
  }

  /**
   * The invariant of an episode that is still running: every segment lies
   * on the board and no two segments share a cell.
   */
  ghost predicate OnBoardAndDistinct(g: Game)
  {
    (forall i :: 0 <= i < |g.body| ==> !OutOfBounds(g.body[i], g.width, g.height)) &&
    (forall i, j :: 0 <= i < j < |g.body| ==> g.body[i] != g.body[j])
  }

  /** The one-hot encoding of a direction, in the order UP, DOWN, LEFT, RIGHT. */
  function OneHot(d: Direction): (v: seq<int>)
    ensures |v| == 4
    ensures forall i :: 0 <= i < 4 ==> v[i] == (if i == DirIndex(d) then 1 else 0)
  {
    match d
    case Up => [1, 0, 0, 0]
    case Down => [0, 1, 0, 0]
    case Left => [0, 0, 1, 0]
    case Right => [0, 0, 0, 1]
  }

  /**
   * The state vector: the direction one-hot, the fruit minus the head, the
   * danger-straight flag, and the two danger slots that are never computed.
   * The flag is the game-over test applied to the next cell in the current
   * direction, with the body left as it is.
   */
  function Encode(g: Game): (v: seq<int>)
    ensures |v| == 9
    ensures forall d :: v[DirIndex(d)] == (if d == g.direction then 1 else 0)
    ensures v[4] == g.fruit.x - g.head.x && v[5] == g.fruit.y - g.head.y
    ensures v[6] == (if Terminal(g.(head := Move(g.head, g.direction))) then 1 else 0)
    ensures v[7] == 0 && v[8] == 0
  {
    var directionVector := OneHot(g.direction);
    var fruitDirection := [g.fruit.x - g.head.x, g.fruit.y - g.head.y];
    var next := Move(g.head, g.direction);
    var dangerStraight :=
      if next in Rest(g.body) || OutOfBounds(next, g.width, g.height) then 1 else 0;
    directionVector + fruitDirection + [dangerStraight, 0, 0]
  }

  /**
   * One step with an already decoded direction: turn, move, grow or keep
   * length, respawn an eaten fruit, then test for game over.
   */
  function Transition(g: Game, requested: Direction, nextFruit: Pos): (t: Stepped)
    ensures t.game.width == g.width && t.game.height == g.height
    ensures t.game.changeTo == requested
    ensures t.game.direction != Opposite(g.direction)
    ensures requested != Opposite(g.direction) ==> t.game.direction == requested
    ensures requested == Opposite(g.direction) ==> t.game.direction == g.direction
    ensures t.game.head == Move(g.head, t.game.direction)
    ensures |t.game.body| == |g.body| + (if t.game.head == g.fruit then 1 else 0)
    ensures |t.game.body| > 0 ==> t.game.body[0] == t.game.head
    ensures t.game.head == g.fruit ==>
              t.game.body == [t.game.head] + g.body && t.game.score == g.score + FruitScore &&
              t.game.fruit == nextFruit
    ensures t.game.head != g.fruit ==>
              t.game.body == ([t.game.head] + g.body)[..|g.body|] &&
              t.game.score == g.score && t.game.fruit == g.fruit
    ensures t.out.done <==> Terminal(t.game)
    ensures t.out.reward == (if t.out.done then DeathReward else SurvivalReward)
    ensures t.out.state == Encode(t.game)
  {
    var dir := Turn(g.direction, requested);
    var head := Move(g.head, dir);
    var grown := [head] + g.body;
    var ate := head == g.fruit;
    var body := if ate then grown else grown[..|grown| - 1];
    var game := g.(head := head, body := body,
                   fruit := if ate then nextFruit else g.fruit,
                   direction := dir, changeTo := requested,
                   score := if ate then g.score + FruitScore else g.score);
    var done := Terminal(game);
    Stepped(game, Outcome(Encode(game), if done then DeathReward else SurvivalReward, done))
  }

  /** One step as the environment offers it: an unknown action index is an error. */
  function StepSpec(g: Game, action: int, nextFruit: Pos): (r: Result<Stepped, StepError>)
    ensures r.Failure? <==> !(0 <= action < 4)
    ensures r.Failure? ==> r.error == InvalidAction(action)
    ensures r.Success? ==> DirIndex(r.value.game.changeTo) == action
  {
    match DecodeAction(action)
    case None => Failure(InvalidAction(action))
    case Some(d) => Success(Transition(g, d, nextFruit))
  }

  /**
   * A driver's run: the steps of `inputs` in order, stopping at the first
   * unknown action index (whose lookup leaves the state as it was).
   */
  function Run(g: Game, inputs: seq<Input>): Game
    decreases |inputs|
  {
    if |inputs| == 0 then g
    else
      match StepSpec(g, inputs[0].action, inputs[0].nextFruit)
      case Failure(_) => g
      case Success(s) => Run(s.game, inputs[1..])
  }

  /** No step of the run of `inputs` from `g` returns done. */
  ghost predicate NoStepDone(g: Game, inputs: seq<Input>)
    decreases |inputs|
  {
    if |inputs| == 0 then true
    else
      match StepSpec(g, inputs[0].action, inputs[0].nextFruit)
      case Failure(_) => true
      case Success(s) => !s.out.done && NoStepDone(s.game, inputs[1..])
  }
}
