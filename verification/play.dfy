/** Sequences of store transitions, as the presentation layer issues them:
    what a run of actions preserves, when it can change nothing, and how the
    turn moves along it. */
module Play {
  import opened Board
  import opened Store

  /** One call into the store: start a game of the given size, play at
      column x, row y, or pass. */
  datatype Action = Start(n: int) | Move(x: int, y: int) | Pass

  /** A start needs a positive size; moves and passes take anything. */
  predicate Allowed(a: Action) {
    a.Start? ==> a.n > 0
  }

  predicate AllAllowed(acts: seq<Action>) {
    forall i :: 0 <= i < |acts| ==> Allowed(acts[i])
  }

  /** No action of the run starts a new game. */
  predicate InGame(acts: seq<Action>) {
    forall i :: 0 <= i < |acts| ==> !acts[i].Start?
  }

  /** Applies one action. A move or a pass that changes the record was taken
      while a game was in progress, and it either hands the turn to the other
      colour or ends the game; only a pass right after a pass ends it. In a
      record that an action just changed, the pass flag is set exactly when
      that action was a pass that left the game in progress. */
  function Step(s: GameState, a: Action): (r: GameState)
    requires Valid(s) && Allowed(a)
    ensures Valid(r)
    ensures !a.Start? && r != s ==>
      PhaseOf(s) == Active &&
      (PhaseOf(r) == Done || r.currentTurn == Some(Opponent(s.currentTurn.value)))
    ensures !a.Start? && PhaseOf(r) == Done && r != s ==> a.Pass? && s.passLastTurn
    ensures r != s ==> (r.passLastTurn <==> a.Pass? && PhaseOf(r) == Active)
  {
    match a
    case Start(n) => NewGame(s, n)
    case Move(x, y) => PlayerTurn(s, x, y)
    case Pass => PassTurn(s)
  }

  /** Applies the actions in order. */
  function Run(s: GameState, acts: seq<Action>): (r: GameState)
    requires Valid(s) && AllAllowed(acts)
    ensures Valid(r)
    decreases |acts|
  {
    if acts == [] then s
    else
      assert Allowed(acts[0]);
      Run(Step(s, acts[0]), acts[1..])
  }

  /** Once the game is over, moves and passes change nothing. */
  lemma {:induction false} DoneIsInert(s: GameState, acts: seq<Action>)
    requires Valid(s) && PhaseOf(s) == Done && AllAllowed(acts) && InGame(acts)
    ensures Run(s, acts) == s
    decreases |acts|
  {
    if acts != [] {
      assert !acts[0].Start?;
      assert Step(s, acts[0]) == s;
      DoneIsInert(s, acts[1..]);
    }
  }

  /** Before any game is started, moves and passes change nothing. */
  lemma {:induction false} NotStartedIsInert(s: GameState, acts: seq<Action>)
    requires Valid(s) && PhaseOf(s) == NotStarted && AllAllowed(acts) && InGame(acts)
    ensures Run(s, acts) == s
    decreases |acts|
  {
    if acts != [] {
      assert !acts[0].Start?;
      assert Step(s, acts[0]) == s;
      NotStartedIsInert(s, acts[1..]);
    }
  }

  /** `c` handed over `k` times. */
  function FlipTimes(c: Color, k: nat): (r: Color)
    ensures r == c <==> k % 2 == 0
  {
    if k % 2 == 0 then c else Opponent(c)
  }

  /** How many actions of the run changed the record. */
  function Accepted(s: GameState, acts: seq<Action>): (k: nat)
    requires Valid(s) && AllAllowed(acts)
    ensures k <= |acts|
    decreases |acts|
  {
    if acts == [] then 0
    else
      assert Allowed(acts[0]);
      var s' := Step(s, acts[0]);
      (if s' != s then 1 else 0) + Accepted(s', acts[1..])
  }

  /** Turn alternation: if a run of moves and passes ends with a game still in
      progress, the game was in progress when the run began and the turn has
      changed hands once per accepted action — a rejected action hands
      nothing over and no action hands it over twice. */
  lemma {:induction false} TurnAlternates(s: GameState, acts: seq<Action>)
    requires Valid(s) && AllAllowed(acts) && InGame(acts)
    requires PhaseOf(Run(s, acts)) == Active
    ensures PhaseOf(s) == Active
    ensures Run(s, acts).currentTurn == Some(FlipTimes(s.currentTurn.value, Accepted(s, acts)))
    decreases |acts|
  {
    if acts != [] {
      assert Allowed(acts[0]) && !acts[0].Start?;
      var s' := Step(s, acts[0]);
      var rest := acts[1..];
      assert AllAllowed(rest) && InGame(rest);
      assert Run(s, acts) == Run(s', rest);
      assert PhaseOf(s') != Done by {
        if PhaseOf(s') == Done {
          DoneIsInert(s', rest);
        }
      }
      TurnAlternates(s', rest);
      StepTurn(s, acts[0]);
      var c := s.currentTurn.value;
      var k := Accepted(s', rest);
      if s' != s {
        assert Accepted(s, acts) == k + 1;
        assert FlipTimes(Opponent(c), k) == FlipTimes(c, k + 1);
      } else {
        assert Accepted(s, acts) == k;
      }
    }
  }

  /** A move or pass that leaves a game in progress found one in progress,
      and hands the turn over exactly when it changes the record. */
  lemma StepTurn(s: GameState, a: Action)
    requires Valid(s) && Allowed(a) && !a.Start? && PhaseOf(Step(s, a)) == Active
    ensures PhaseOf(s) == Active
    ensures Step(s, a).currentTurn == if Step(s, a) == s then s.currentTurn else Some(Opponent(s.currentTurn.value))
  {
  }

  /** The game ends in the run exactly when, with the game in progress, a
      pass follows an accepted pass; here, for one step: the record a move or
      pass leaves is over only if it already was, or the action was a pass
      and the pass flag was set. */
  lemma EndsOnlyBySecondPass(s: GameState, a: Action)
    requires Valid(s) && Allowed(a) && !a.Start?
    requires PhaseOf(Step(s, a)) == Done
    ensures PhaseOf(s) == Done || (PhaseOf(s) == Active && a.Pass? && s.passLastTurn)
  {
    if Step(s, a) == s {
    } else {
      assert PhaseOf(s) == Active;
    }
  }

  /** Starting a game discards everything the record held: the run that
      follows depends only on the size. */
  lemma StartSupersedes(s: GameState, t: GameState, n: int, acts: seq<Action>)
    requires Valid(s) && Valid(t) && n > 0 && AllAllowed(acts)
    ensures AllAllowed([Start(n)] + acts)
    ensures Run(s, [Start(n)] + acts) == Run(t, [Start(n)] + acts)
  {
    var all := [Start(n)] + acts;
    assert all[1..] == acts;
    assert forall i :: 0 <= i < |all| ==> Allowed(all[i]) by {
      forall i | 0 <= i < |all|
        ensures Allowed(all[i])
      {
        if i > 0 {
          assert all[i] == acts[i - 1];
        }
      }
    }
  }
}
