/**
 * Properties of the snake simulation: the action table round trip, the
 * move and its inverse, the invariant every step keeps, the reversal rule
 * keeping the head off the neck, what the danger-straight flag predicts
 * about the next step, and the invariant of every state reachable from a
 * reset.
 */
module GameProperties {
  import opened Wrappers
  import opened SnakeGame

  /** Every direction has an action index that decodes back to it. */
  lemma ActionRoundTrip(d: Direction)
    ensures DecodeAction(DirIndex(d)) == Some(d)
  {
  }

  /** Opposite directions come in pairs. */
  lemma OppositeInvolutive(d: Direction)
    ensures Opposite(Opposite(d)) == d
  {
  }

  /** Moving back in the opposite direction undoes a move. */
  lemma MoveBack(p: Pos, d: Direction)
    ensures Move(Move(p, d), Opposite(d)) == p
  {
  }

  /** Two different directions lead from one cell to two different cells. */
  lemma MoveInjective(p: Pos, d1: Direction, d2: Direction)
    requires Move(p, d1) == Move(p, d2)
    ensures d1 == d2
  {
  }

  /** Every step keeps the state well formed, whether or not the fruit is eaten. */
  lemma TransitionKeepsWellFormed(g: Game, requested: Direction, nextFruit: Pos)
    requires WellFormed(g)
    requires FruitInRange(nextFruit, g.width, g.height)
    ensures WellFormed(Transition(g, requested, nextFruit).game)
  {
  }

  /**
   * The reversal rule at work: the new head never lands on the segment
   * right behind the old head.
   */
  lemma NeckNeverEntered(g: Game, requested: Direction, nextFruit: Pos)
    requires WellFormed(g)
    ensures Transition(g, requested, nextFruit).game.head != g.body[1]
  {
  }

  /**
   * A clear danger-straight flag is sound: a step that keeps the current
   * direction then survives and earns the survival reward.
   */
  lemma DangerFlagSound(g: Game, requested: Direction, nextFruit: Pos)
    requires WellFormed(g)
    requires Turn(g.direction, requested) == g.direction
    requires Encode(g)[6] == 0
    ensures !Transition(g, requested, nextFruit).out.done
    ensures Transition(g, requested, nextFruit).out.reward == SurvivalReward
  {
  }

  /**
   * A step that keeps the current direction ends the episode just when the
   * next cell is off the board or on a segment that is still there after
   * the step: any later segment when the fruit is eaten, any but the tail
   * otherwise.
   */
  lemma StraightStepDone(g: Game, requested: Direction, nextFruit: Pos)
    requires WellFormed(g)
    requires Turn(g.direction, requested) == g.direction
    ensures var next := Move(g.head, g.direction);
      Transition(g, requested, nextFruit).out.done <==>
        OutOfBounds(next, g.width, g.height) ||
        next in (if next == g.fruit then g.body[1..] else g.body[1..|g.body| - 1])
  {
    var next := Move(g.head, g.direction);
    var t := Transition(g, requested, nextFruit).game;
    var n := |g.body|;
    assert next != g.body[0];
    if next == g.fruit {
      assert t.body[1..] == g.body;
      assert g.body == [g.body[0]] + g.body[1..];
    } else {
      assert t.body[1..] == g.body[..n - 1];
      assert g.body[..n - 1] == [g.body[0]] + g.body[1..n - 1];
    }
  }

  /**
   * A raised danger-straight flag errs in one case only: a step that keeps
   * the current direction survives it just when the next cell is the tail,
   * which moves away in the same step because no fruit is eaten.
   */
  lemma DangerFlagMissesOnlyTail(g: Game, requested: Direction, nextFruit: Pos)
    requires WellFormed(g)
    requires Turn(g.direction, requested) == g.direction
    requires Encode(g)[6] == 1
    requires !Transition(g, requested, nextFruit).out.done
    ensures Move(g.head, g.direction) == g.body[|g.body| - 1]
    ensures Move(g.head, g.direction) != g.fruit
  {
    var n := |g.body|;
    var next := Move(g.head, g.direction);
    StraightStepDone(g, requested, nextFruit);
    assert !OutOfBounds(next, g.width, g.height);
    assert next in g.body[1..];
    assert next != g.fruit;
    InRestButNotBeforeLast(g.body, next);
  }

  /** A later element that is not before the last one is the last one. */
  lemma InRestButNotBeforeLast<T>(s: seq<T>, x: T)
    requires |s| >= 2 && x in s[1..] && x !in s[1..|s| - 1]
    ensures x == s[|s| - 1]
  {
  }

  /** Every run of steps keeps the state well formed and never shrinks the snake or the score. */
  lemma {:induction false} RunKeepsWellFormed(g: Game, inputs: seq<Input>)
    requires WellFormed(g)
    requires forall i :: 0 <= i < |inputs| ==> FruitInRange(inputs[i].nextFruit, g.width, g.height)
    ensures WellFormed(Run(g, inputs))
    ensures Run(g, inputs).width == g.width && Run(g, inputs).height == g.height
    ensures |Run(g, inputs).body| >= |g.body| && Run(g, inputs).score >= g.score
    decreases |inputs|
  {
    if |inputs| > 0 {
      var r := StepSpec(g, inputs[0].action, inputs[0].nextFruit);
      if r.Success? {
        var d := DecodeAction(inputs[0].action).value;
        TransitionKeepsWellFormed(g, d, inputs[0].nextFruit);
        var rest := inputs[1..];
        assert forall i :: 0 <= i < |rest| ==> rest[i] == inputs[i + 1];
        RunKeepsWellFormed(r.value.game, rest);
      }
    }
  }

  /**
   * Every state reachable from a reset has at least three segments, all on
   * the grid, a fruit on a drawable cell and a score of ten per segment
   * grown.
   */
  lemma ReachableFromReset(width: int, height: int, fruit: Pos, inputs: seq<Input>)
    requires FruitInRange(fruit, width, height)
    requires forall i :: 0 <= i < |inputs| ==> FruitInRange(inputs[i].nextFruit, width, height)
    ensures var g := Run(Initial(width, height, fruit), inputs);
      |g.body| >= 3 && g.body[0] == g.head && OnGrid(g.head) &&
      (forall i :: 0 <= i < |g.body| ==> OnGrid(g.body[i])) &&
      FruitInRange(g.fruit, width, height) &&
      g.score == FruitScore * (|g.body| - 3)
  {
    RunKeepsWellFormed(Initial(width, height, fruit), inputs);
  }

  /**
   * A step that does not return done keeps every segment on the board and
   * all segments distinct.
   */
  lemma SurvivingStepKeepsOnBoardAndDistinct(g: Game, requested: Direction, nextFruit: Pos)
    requires WellFormed(g) && OnBoardAndDistinct(g)
    requires !Transition(g, requested, nextFruit).out.done
    ensures OnBoardAndDistinct(Transition(g, requested, nextFruit).game)
  {
  }

  /**
   * A run in which no step returns done keeps every segment on the board
   * and all segments distinct.
   */
  lemma {:induction false} RunKeepsOnBoardAndDistinct(g: Game, inputs: seq<Input>)
    requires WellFormed(g) && OnBoardAndDistinct(g)
    requires forall i :: 0 <= i < |inputs| ==> FruitInRange(inputs[i].nextFruit, g.width, g.height)
    requires NoStepDone(g, inputs)
    ensures OnBoardAndDistinct(Run(g, inputs))
    decreases |inputs|
  {
    if |inputs| > 0 {
      var r := StepSpec(g, inputs[0].action, inputs[0].nextFruit);
      if r.Success? {
        var d := DecodeAction(inputs[0].action).value;
        TransitionKeepsWellFormed(g, d, inputs[0].nextFruit);
        SurvivingStepKeepsOnBoardAndDistinct(g, d, inputs[0].nextFruit);
        var rest := inputs[1..];
        assert forall i :: 0 <= i < |rest| ==> rest[i] == inputs[i + 1];
        RunKeepsOnBoardAndDistinct(r.value.game, rest);
      }
    }
  }

  /**
   * The reset state has every segment on the board, all distinct, exactly
   * when the board is at least 110 wide and 60 high.
   */
  lemma InitialOnBoardAndDistinct(width: int, height: int, fruit: Pos)
    requires FruitInRange(fruit, width, height)
    ensures OnBoardAndDistinct(Initial(width, height, fruit)) <==> width >= 110 && height >= 60
  {
  }

  /**
   * From a reset on a board at least 110 wide and 60 high, every state
   * reached without a step returning done has all segments on the board
   * and distinct.
   */
  lemma ActiveEpisodeOnBoardAndDistinct(width: int, height: int, fruit: Pos, inputs: seq<Input>)
    requires FruitInRange(fruit, width, height) && width >= 110 && height >= 60
    requires forall i :: 0 <= i < |inputs| ==> FruitInRange(inputs[i].nextFruit, width, height)
    requires NoStepDone(Initial(width, height, fruit), inputs)
    ensures var g := Run(Initial(width, height, fruit), inputs);
      (forall i :: 0 <= i < |g.body| ==> !OutOfBounds(g.body[i], width, height)) &&
      (forall i, j :: 0 <= i < j < |g.body| ==> g.body[i] != g.body[j])
  {
    InitialOnBoardAndDistinct(width, height, fruit);
    RunKeepsOnBoardAndDistinct(Initial(width, height, fruit), inputs);
    RunKeepsWellFormed(Initial(width, height, fruit), inputs);
  }

  /**
   * On a board narrower than 110 the start cell (100, 50) is already off
   * the board, so the first step of an episode always returns done.
   */
  lemma NarrowBoardFirstStepDone(width: int, height: int, fruit: Pos, action: int, nextFruit: Pos)
    requires FruitInRange(fruit, width, height) && width < 110
    requires 0 <= action < 4
    ensures StepSpec(Initial(width, height, fruit), action, nextFruit).Success?
    ensures StepSpec(Initial(width, height, fruit), action, nextFruit).value.out.done
  {
  }

  /** The first step straight ahead from a reset on the default 720 by 480 board. */
  lemma FirstStepScenario(fruit: Pos, nextFruit: Pos)
    requires FruitInRange(fruit, 720, 480) && fruit != Pos(110, 50)
    ensures var r := StepSpec(Initial(720, 480, fruit), 3, nextFruit);
      r.Success? &&
      r.value.game.body == [Pos(110, 50), Pos(100, 50), Pos(90, 50)] &&
      r.value.out.reward == 1 && !r.value.out.done
  {
  }

  /** Moving right from the last column of the default board leaves it and ends the episode. */
  lemma WallScenario(nextFruit: Pos)
    ensures var g := Game(720, 480, Pos(710, 50), [Pos(710, 50), Pos(700, 50), Pos(690, 50)],
                          Pos(10, 10), Right, Right, 0);
      WellFormed(g) &&
      var r := StepSpec(g, 3, nextFruit);
      r.Success? && r.value.game.head == Pos(720, 50) &&
      r.value.out.done && r.value.out.reward == -10
  {
  }
}
