/**
 * The environment object: its fields are updated in place by `Reset` and
 * `Step`, and `GetGameState` reads them. Every method is proved against the
 * value-level functions of module SnakeGame through `Snapshot`, and keeps
 * the invariant `Valid`.
 */
module SnakeEnv {
  import opened Wrappers
  import opened SnakeGame
  import GameProperties

  class SnakeGameAI {
    const width: int
    const height: int
    var snakePos: Pos
    var snakeBody: seq<Pos>
    var fruitPos: Pos
    var fruitSpawn: bool
    var direction: Direction
    var changeTo: Direction
    var score: int

    /** The fields as a value; `fruitSpawn` is left out: it is true between calls, which `Valid()` requires. */
    function Snapshot(): Game
      reads this
    {
      Game(width, height, snakePos, snakeBody, fruitPos, direction, changeTo, score)
    }

    ghost predicate Valid()
      reads this
    {
      WellFormed(Snapshot()) && fruitSpawn
    }

    /** Sets the board size and resets; the first fruit is drawn by the caller. */
    constructor (width: int, height: int, fruit: Pos)
      requires FruitInRange(fruit, width, height)
      ensures Valid()
      ensures this.width == width && this.height == height
      ensures Snapshot() == Initial(width, height, fruit)
    {
      this.width := width;
      this.height := height;
      new;
      Reset(fruit);
    }

    /** Starts a new episode; `fruit` is the cell the random draw picked. */
    method Reset(fruit: Pos)
      requires FruitInRange(fruit, width, height)
      modifies this
      ensures Valid()
      ensures snakePos == Pos(100, 50)
      ensures snakeBody == [Pos(100, 50), Pos(90, 50), Pos(80, 50)]
      ensures fruitPos == fruit && fruitSpawn
      ensures direction == Right && changeTo == Right && score == 0
      ensures Snapshot() == Initial(width, height, fruit)
    {
      snakePos := Pos(100, 50);
      snakeBody := [Pos(100, 50), Pos(90, 50), Pos(80, 50)];
      fruitPos := fruit;
      fruitSpawn := true;
      direction := Right;
      changeTo := direction;
      score := 0;
    }

    /**
     * Applies one action. `nextFruit` is the cell the random draw picks if
     * the fruit is eaten. An unknown action index fails before any field
     * is touched.
     */
    method Step(action: int, nextFruit: Pos) returns (r: Result<Outcome, StepError>)
      requires Valid()
      requires FruitInRange(nextFruit, width, height)
      modifies this
      ensures Valid()
      ensures var s := StepSpec(old(Snapshot()), action, nextFruit);
                (s.Failure? ==> r == Failure(s.error) && Snapshot() == old(Snapshot())) &&
                (s.Success? ==> r == Success(s.value.out) && Snapshot() == s.value.game)
    {
      var requested := DecodeAction(action);
      if requested.None? {
        return Failure(InvalidAction(action));
      }
      ghost var before := Snapshot();
      ghost var t := Transition(before, requested.value, nextFruit);
      changeTo := requested.value;

      ChangeDirection();
      MoveHead();

      snakeBody := [snakePos] + snakeBody;
      if snakePos == fruitPos {
        score := score + FruitScore;
        fruitSpawn := false;
      } else {
        snakeBody := snakeBody[..|snakeBody| - 1];
      }

      if !fruitSpawn {
        fruitPos := nextFruit;
      }
      fruitSpawn := true;
      assert Snapshot() == t.game;

      var reward, gameOver := CheckGameOver();
      if !gameOver {
        reward := reward + SurvivalReward;
      }

      GameProperties.TransitionKeepsWellFormed(before, requested.value, nextFruit);
      r := Success(Outcome(GetGameState(), reward, gameOver));
    }

    /**
     * The game-over test of a step: the head off the board or on any later
     * segment; the reward so far is the death penalty then, and 0 otherwise.
     */
    method CheckGameOver() returns (reward: int, gameOver: bool)
      ensures gameOver == Terminal(Snapshot())
      ensures reward == (if gameOver then DeathReward else 0)
    {
      reward := 0;
      gameOver := false;
      if snakePos.x < 0 || snakePos.x > width - CellSize ||
         snakePos.y < 0 || snakePos.y > height - CellSize {
        gameOver := true;
        reward := DeathReward;
      }
      var blocks := Rest(snakeBody);
      var i := 0;
      while i < |blocks|
        invariant 0 <= i <= |blocks|
        invariant gameOver == (OutOfBounds(snakePos, width, height) || snakePos in blocks[..i])
        invariant reward == (if gameOver then DeathReward else 0)
      {
        assert blocks[..i + 1] == blocks[..i] + [blocks[i]];
        if snakePos == blocks[i] {
          gameOver := true;
          reward := DeathReward;
        }
        i := i + 1;
      }
      assert blocks[..i] == blocks;
    }

    /** The direction rule: takes `changeTo` unless it reverses the current direction. */
    method ChangeDirection()
      modifies this`direction
      ensures direction == Turn(old(direction), changeTo)
    {
      if changeTo == Up && direction != Down { direction := Up; }
      if changeTo == Down && direction != Up { direction := Down; }
      if changeTo == Left && direction != Right { direction := Left; }
      if changeTo == Right && direction != Left { direction := Right; }
    }

    /** Moves the head one cell in the current direction. */
    method MoveHead()
      modifies this`snakePos
      ensures snakePos == Move(old(snakePos), direction)
    {
      if direction == Up { snakePos := snakePos.(y := snakePos.y - CellSize); }
      if direction == Down { snakePos := snakePos.(y := snakePos.y + CellSize); }
      if direction == Left { snakePos := snakePos.(x := snakePos.x - CellSize); }
      if direction == Right { snakePos := snakePos.(x := snakePos.x + CellSize); }
    }

    /** The 9-slot state vector of the current fields; nothing is changed. */
    function GetGameState(): (v: seq<int>)
      reads this
      ensures |v| == 9
      ensures forall d :: v[DirIndex(d)] == (if d == direction then 1 else 0)
      ensures v[4] == fruitPos.x - snakePos.x && v[5] == fruitPos.y - snakePos.y
      ensures var next := Move(snakePos, direction);
                v[6] == (if OutOfBounds(next, width, height) || next in Rest(snakeBody) then 1 else 0)
      ensures v[7] == 0 && v[8] == 0
    {
      Encode(Snapshot())
    }
  }
}
