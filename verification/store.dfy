/** The game store: one record holding the whole state of a game, and the
    three transitions the presentation layer drives it with — start a new
    game, play a stone, pass. Every transition returns the next record;
    an inapplicable one returns its input unchanged. */
module Store {
  import opened Board
  import opened Groups
  import opened Capture

  /** `None` stands for the null turn: no game yet, or a finished game. */
  datatype Option<T> = None | Some(value: T)

  /** How many stones each colour has captured from the other. */
  datatype Tally = Tally(black: nat, white: nat) {
    function Of(c: Color): nat {
      if c == Black then black else white
    }

    /** The tally with `k` more captures for `c` and the same for the other
        colour. */
    function Credit(c: Color, k: nat): (t: Tally)
      ensures t.Of(c) == Of(c) + k
      ensures t.Of(Opponent(c)) == Of(Opponent(c))
    {
      if c == Black then this.(black := black + k) else this.(white := white + k)
    }
  }

  datatype GameState = GameState(
    size: nat,
    gameType: string,
    board: Grid,
    captures: Tally,
    currentTurn: Option<Color>,
    passLastTurn: bool,
    gameDone: bool)

  datatype Phase = NotStarted | Active | Done

  /** The phase is not stored; it is read off the record. A finished game is
      done; otherwise a game is in progress exactly when somebody is to
      move. */
  function PhaseOf(s: GameState): (ph: Phase)
    ensures ph == Done <==> s.gameDone
    ensures ph == Active <==> !s.gameDone && s.currentTurn.Some?
    ensures ph == NotStarted <==> !s.gameDone && s.currentTurn.None?
  {
    if s.gameDone then Done
    else if s.currentTurn.Some? then Active
    else NotStarted
  }

  /** What every reachable record satisfies: a square board of the recorded
      size, a positive size while a game is in progress, and no turn once the
      game is over. */
  predicate Valid(s: GameState) {
    |s.board| == s.size && IsSquare(s.board) &&
    (s.currentTurn.Some? ==> s.size > 0) &&
    (s.gameDone ==> s.currentTurn.None?)
  }

  /** The record before any game is started. */
  const Initial := GameState(0, "", [], Tally(0, 0), None, false, false)

  lemma InitialIsNotStarted()
    ensures Valid(Initial) && PhaseOf(Initial) == NotStarted
  {
  }

  /** Starts a game on an n x n board, whatever the record held before. */
  function NewGame(s: GameState, n: int): (r: GameState)
    requires n > 0
    ensures Valid(r) && PhaseOf(r) == Active
    ensures r.size == n && |r.board| == n && r.gameType == "local"
    ensures forall p :: InBounds(r.board, p) ==> At(r.board, p) == Empty
    ensures r.captures.Of(Black) == 0 && r.captures.Of(White) == 0
    ensures r.currentTurn == Some(Black) && !r.passLastTurn && !r.gameDone
  {
    GameState(n, "local", NewBoard(n), Tally(0, 0), Some(Black), false, false)
  }

  /** A move at column x, row y is accepted: a game is in progress and the
      cell is on the board and empty. */
  function Accepts(s: GameState, x: int, y: int): (ok: bool)
    requires Valid(s)
    ensures ok <==> PhaseOf(s) == Active && InBounds(s.board, Pos(x, y)) && At(s.board, Pos(x, y)) == Empty
    ensures ok ==> s.currentTurn.Some? && !s.gameDone
  {
    PhaseOf(s) == Active && InBounds(s.board, Pos(x, y)) && !IsOccupied(s.board, Pos(x, y))
  }

  /** The mover's stone placed at `m`, before any capture. */
  function Placed(s: GameState, m: Pos): (b: Grid)
    requires Valid(s) && s.currentTurn.Some? && InBounds(s.board, m)
    ensures |b| == s.size && IsSquare(b)
  {
    Place(s.board, m, Stone(s.currentTurn.value))
  }

  /** Placing a stone on an empty cell leaves the other colour's stones where
      they were. */
  lemma PlaceKeepsOpponent(b: Grid, m: Pos, c: Color)
    requires IsSquare(b) && InBounds(b, m) && At(b, m) == Empty
    ensures StonesOf(Place(b, m, Stone(c)), Opponent(c)) == StonesOf(b, Opponent(c))
  {
  }

  /** Plays a stone for the side to move at column x, row y. An accepted
      move places the stone, removes every adjacent opposing group left
      without liberties, credits the mover with the stones removed, hands the
      turn to the other colour and clears the pass flag. Anything else
      leaves the record as it was. The mover's own group is never examined,
      so a move that leaves it without liberties stays on the board. */
  function PlayerTurn(s: GameState, x: int, y: int): (r: GameState)
    requires Valid(s)
    ensures Valid(r)
    ensures r == s <==> !Accepts(s, x, y)
    ensures Accepts(s, x, y) ==>
      var c := s.currentTurn.value;
      r.size == s.size && r.gameType == s.gameType &&
      At(r.board, Pos(x, y)) == Stone(c) &&
      r.currentTurn == Some(Opponent(c)) && PhaseOf(r) == Active && !r.passLastTurn &&
      r.captures.Of(Opponent(c)) == s.captures.Of(Opponent(c))
  {
    if !Accepts(s, x, y) then s
    else
      var m := Pos(x, y);
      var c := s.currentTurn.value;
      var b := Placed(s, m);
      var cap := CaptureAll(b, Opponent(c), Neighbors(b, m));
      CaptureAllFrame(b, Opponent(c), Neighbors(b, m));
      s.(board := cap.0,
         captures := s.captures.Credit(c, cap.1),
         currentTurn := Some(Opponent(c)),
         passLastTurn := false)
  }

  /** Passes for the side to move. The first pass hands over the turn and
      remembers the pass; a pass right after a pass ends the game, clears
      the turn and, since that pass did not leave a game running, clears the
      pass flag. Board and captures never change, and with no game in
      progress nothing does. */
  function PassTurn(s: GameState): (r: GameState)
    requires Valid(s)
    ensures Valid(r)
    ensures PhaseOf(s) != Active ==> r == s
    ensures r.size == s.size && r.gameType == s.gameType
    ensures r.board == s.board && r.captures == s.captures
    ensures PhaseOf(s) == Active && !s.passLastTurn ==>
      PhaseOf(r) == Active && r.passLastTurn && r.currentTurn == Some(Opponent(s.currentTurn.value))
    ensures PhaseOf(s) == Active && s.passLastTurn ==>
      PhaseOf(r) == Done && r.currentTurn == None && !r.passLastTurn
  {
    if PhaseOf(s) != Active then s
    else if s.passLastTurn then s.(gameDone := true, currentTurn := None, passLastTurn := false)
    else s.(passLastTurn := true, currentTurn := Some(Opponent(s.currentTurn.value)))
  }

  /** An accepted move keeps the new stone on its cell, and every other cell
      either keeps its content or loses an opposing stone; the mover's
      captures grow by exactly the number of opposing stones that leave the
      board. */
  lemma MoveFrame(s: GameState, x: int, y: int)
    requires Valid(s) && Accepts(s, x, y)
    ensures var r := PlayerTurn(s, x, y);
            var c := s.currentTurn.value;
            r.captures.Of(c) + |StonesOf(r.board, Opponent(c))| == s.captures.Of(c) + |StonesOf(s.board, Opponent(c))|
    ensures var r := PlayerTurn(s, x, y);
            forall q {:trigger At(r.board, q)} :: InBounds(s.board, q) && q != Pos(x, y) ==>
              At(r.board, q) == At(s.board, q) ||
              (At(s.board, q) == Stone(Opponent(s.currentTurn.value)) && At(r.board, q) == Empty)
  {
    var m := Pos(x, y);
    var c := s.currentTurn.value;
    var b := Placed(s, m);
    PlaceKeepsOpponent(s.board, m, c);
    CaptureAllFrame(b, Opponent(c), Neighbors(b, m));
  }

  /** The board an accepted move leaves is the placed board with exactly the
      doomed stones cleared — every stone of an opposing group next to the
      move that has no liberty once the stone is placed — and the mover is
      credited with exactly that many stones. */
  lemma MoveRemovesDoomed(s: GameState, x: int, y: int)
    requires Valid(s) && Accepts(s, x, y)
    ensures var b := Placed(s, Pos(x, y));
            var c := s.currentTurn.value;
            var d := Doomed(b, Opponent(c), Neighbors(b, Pos(x, y)));
            PlayerTurn(s, x, y).board == Clear(b, d) &&
            PlayerTurn(s, x, y).captures.Of(c) == s.captures.Of(c) + |d|
  {
    var b := Placed(s, Pos(x, y));
    CaptureAllRemovesDoomed(b, Opponent(s.currentTurn.value), Neighbors(b, Pos(x, y)));
  }

  /** After an accepted move no opposing group touching the new stone is
      left without liberties. */
  lemma MoveLeavesNoDeadNeighbor(s: GameState, x: int, y: int, q: Pos)
    requires Valid(s) && Accepts(s, x, y)
    requires q in Neighbors(s.board, Pos(x, y))
    requires At(PlayerTurn(s, x, y).board, q) == Stone(Opponent(s.currentTurn.value))
    ensures var r := PlayerTurn(s, x, y);
            Liberties(r.board, Group(r.board, q)) != {}
  {
    var b := Placed(s, Pos(x, y));
    var v := Opponent(s.currentTurn.value);
    MoveRemovesDoomed(s, x, y);
    SurvivorsBreathe(b, v, Neighbors(b, Pos(x, y)), q);
  }

  /** A stone an accepted move removes belonged, once the new stone was
      placed, to an opposing group next to the move that had no liberty. */
  lemma MoveRemovesOnlyDead(s: GameState, x: int, y: int, p: Pos)
    requires Valid(s) && Accepts(s, x, y) && InBounds(s.board, p) && p != Pos(x, y)
    requires At(s.board, p).Stone? && At(PlayerTurn(s, x, y).board, p) == Empty
    ensures var b := Placed(s, Pos(x, y));
            exists q :: q in Neighbors(b, Pos(x, y)) && Dead(b, Opponent(s.currentTurn.value), q) && p in Group(b, q)
  {
    var b := Placed(s, Pos(x, y));
    var v := Opponent(s.currentTurn.value);
    MoveRemovesDoomed(s, x, y);
    assert p in Doomed(b, v, Neighbors(b, Pos(x, y)));
  }

  /** A move next to no dead opposing group only places its stone: nothing
      is removed and nobody is credited. */
  lemma QuietMove(s: GameState, x: int, y: int)
    requires Valid(s) && Accepts(s, x, y)
    requires forall q :: q in Neighbors(s.board, Pos(x, y)) ==>
      !Dead(Placed(s, Pos(x, y)), Opponent(s.currentTurn.value), q)
    ensures PlayerTurn(s, x, y).board == Placed(s, Pos(x, y))
    ensures PlayerTurn(s, x, y).captures == s.captures
  {
    var b := Placed(s, Pos(x, y));
    var c := s.currentTurn.value;
    var d := Doomed(b, Opponent(c), Neighbors(b, Pos(x, y)));
    MoveRemovesDoomed(s, x, y);
    assert d == {};
    ClearNothing(b);
    var t := PlayerTurn(s, x, y).captures;
    assert t.Of(Black) == s.captures.Of(Black) && t.Of(White) == s.captures.Of(White);
  }
}
