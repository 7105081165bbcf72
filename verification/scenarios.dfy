/** The game store's unit scenarios, each proved for the model: a restart
    after a finished exchange, moves with no game, a first move, one and two
    passes, the corner capture and a move onto an occupied cell. */
module Scenarios {
  import opened Board
  import opened Groups
  import opened Capture
  import opened Store
  import opened Play

  /** The board holds exactly the stones listed in `stones`. */
  ghost predicate Holds(b: Grid, stones: map<Pos, Color>)
    requires IsSquare(b)
  {
    forall p :: InBounds(b, p) ==> At(b, p) == (if p in stones then Stone(stones[p]) else Empty)
  }

  /** A move onto an empty cell next to no dead opposing group adds its
      stone to the listed ones, credits nobody and hands over the turn. */
  lemma QuietPlace(s: GameState, x: int, y: int, stones: map<Pos, Color>)
    requires Valid(s) && PhaseOf(s) == Active && InBounds(s.board, Pos(x, y))
    requires Holds(s.board, stones) && Pos(x, y) !in stones
    requires forall q :: q in Neighbors(s.board, Pos(x, y)) ==>
      !Dead(Placed(s, Pos(x, y)), Opponent(s.currentTurn.value), q)
    ensures var r := PlayerTurn(s, x, y);
            Holds(r.board, stones[Pos(x, y) := s.currentTurn.value]) &&
            r.captures == s.captures && r.currentTurn == Some(Opponent(s.currentTurn.value)) &&
            PhaseOf(r) == Active
  {
    assert Accepts(s, x, y);
    QuietMove(s, x, y);
  }

  /** A fresh game of size n after Black (0,0). */
  function Opening1(n: int): (s: GameState)
    requires n > 10
    ensures Valid(s)
  {
    PlayerTurn(NewGame(Initial, n), 0, 0)
  }

  /** ... then White (0,1). */
  function Opening2(n: int): (s: GameState)
    requires n > 10
    ensures Valid(s)
  {
    PlayerTurn(Opening1(n), 0, 1)
  }

  /** ... then Black (10,10). */
  function Opening(n: int): (s: GameState)
    requires n > 10
    ensures Valid(s)
  {
    PlayerTurn(Opening2(n), 10, 10)
  }

  lemma OpeningStep1(n: int)
    requires n > 10
    ensures var s := Opening1(n);
            Holds(s.board, map[Pos(0, 0) := Black]) && PhaseOf(s) == Active &&
            s.currentTurn == Some(White) && s.captures == Tally(0, 0)
  {
    var s0 := NewGame(Initial, n);
    assert Holds(s0.board, map[]);
    var b := Placed(s0, Pos(0, 0));
    forall q | q in Neighbors(s0.board, Pos(0, 0))
      ensures !Dead(b, White, q)
    {
      assert At(b, q) == Empty;
    }
    QuietPlace(s0, 0, 0, map[]);
  }

  lemma OpeningStep2(n: int)
    requires n > 10
    ensures var s := Opening2(n);
            Holds(s.board, map[Pos(0, 0) := Black, Pos(0, 1) := White]) && PhaseOf(s) == Active &&
            s.currentTurn == Some(Black) && s.captures == Tally(0, 0)
  {
    var s1 := Opening1(n);
    OpeningStep1(n);
    var b := Placed(s1, Pos(0, 1));
    forall q | q in Neighbors(s1.board, Pos(0, 1))
      ensures !Dead(b, Black, q)
    {
      if q == Pos(0, 0) {
        var g := Group(b, q);
        assert q in g && Adjacent(q, Pos(1, 0));
        assert At(b, Pos(1, 0)) == Empty;
        assert Pos(1, 0) in Liberties(b, g);
      } else {
        assert At(b, q) == Empty;
      }
    }
    QuietPlace(s1, 0, 1, map[Pos(0, 0) := Black]);
    assert map[Pos(0, 0) := Black][Pos(0, 1) := White] == map[Pos(0, 0) := Black, Pos(0, 1) := White];
  }

  /** The opening captures nothing and leaves White to move with three
      stones on the board. */
  lemma OpeningBoard(n: int)
    requires n > 10
    ensures var s := Opening(n);
            Holds(s.board, map[Pos(0, 0) := Black, Pos(0, 1) := White, Pos(10, 10) := Black]) &&
            PhaseOf(s) == Active && s.currentTurn == Some(White) && s.captures == Tally(0, 0)
  {
    var s2 := Opening2(n);
    OpeningStep2(n);
    var b := Placed(s2, Pos(10, 10));
    forall q | q in Neighbors(s2.board, Pos(10, 10))
      ensures !Dead(b, White, q)
    {
      assert At(b, q) == Empty;
    }
    var stones := map[Pos(0, 0) := Black, Pos(0, 1) := White];
    QuietPlace(s2, 10, 10, stones);
    assert stones[Pos(10, 10) := Black] == map[Pos(0, 0) := Black, Pos(0, 1) := White, Pos(10, 10) := Black];
  }

  /** A black stone in the corner with white stones on both of its
      neighbours is a group of its own. */
  lemma CornerGroup(b: Grid)
    requires IsSquare(b) && |b| > 1
    requires At(b, Pos(0, 0)) == Stone(Black)
    requires At(b, Pos(1, 0)) == Stone(White) && At(b, Pos(0, 1)) == Stone(White)
    ensures Group(b, Pos(0, 0)) == {Pos(0, 0)}
  {
    var corner := Pos(0, 0);
    assert forall q :: q in Neighbors(b, corner) ==> q == Pos(1, 0) || q == Pos(0, 1);
    ClosedHoldsGroup(b, corner, {corner});
  }

  /** ... and has no liberty. */
  lemma CornerNoLiberty(b: Grid)
    requires IsSquare(b) && |b| > 1
    requires At(b, Pos(1, 0)) == Stone(White) && At(b, Pos(0, 1)) == Stone(White)
    ensures Liberties(b, {Pos(0, 0)}) == {}
  {
    assert forall r :: Adjacent(Pos(0, 0), r) && InBounds(b, r) ==> r == Pos(1, 0) || r == Pos(0, 1);
  }

  lemma CornerIsDead(b: Grid)
    requires IsSquare(b) && |b| > 1
    requires At(b, Pos(0, 0)) == Stone(Black)
    requires At(b, Pos(1, 0)) == Stone(White) && At(b, Pos(0, 1)) == Stone(White)
    ensures Group(b, Pos(0, 0)) == {Pos(0, 0)} && Dead(b, Black, Pos(0, 0))
  {
    CornerGroup(b);
    CornerNoLiberty(b);
  }

  /** With the corner stone surrounded and the other two neighbours of
      (1,0) empty, the stones doomed by a move at (1,0) are the corner stone
      alone. */
  lemma CornerIsDoomed(b: Grid)
    requires IsSquare(b) && |b| > 2
    requires At(b, Pos(0, 0)) == Stone(Black)
    requires At(b, Pos(1, 0)) == Stone(White) && At(b, Pos(0, 1)) == Stone(White)
    requires At(b, Pos(2, 0)) == Empty && At(b, Pos(1, 1)) == Empty
    ensures Doomed(b, Black, Neighbors(b, Pos(1, 0))) == {Pos(0, 0)}
  {
    var corner := Pos(0, 0);
    var qs := Neighbors(b, Pos(1, 0));
    assert corner in qs && Dead(b, Black, corner) && Group(b, corner) == {corner} by {
      CornerIsDead(b);
    }
    assert forall q :: q in qs && Dead(b, Black, q) ==> q in Group(b, corner) by {
      forall q | q in qs && Dead(b, Black, q)
        ensures q == corner
      {
        EdgeNeighbors(b, q);
      }
    }
    DoomedOneGroup(b, Black, qs, corner);
  }

  /** The neighbours of (1,0) on a board of side at least 3. */
  lemma EdgeNeighbors(b: Grid, q: Pos)
    requires IsSquare(b) && |b| > 2 && q in Neighbors(b, Pos(1, 0))
    ensures q == Pos(0, 0) || q == Pos(2, 0) || q == Pos(1, 1)
  {
  }

  /** The board right after White's (1,0), before the capture. */
  lemma CornerBoard(n: int)
    requires n > 10
    ensures var s := Opening(n);
            s.currentTurn.Some? && InBounds(s.board, Pos(1, 0)) &&
            var b := Placed(s, Pos(1, 0));
            |b| > 2 &&
            At(b, Pos(0, 0)) == Stone(Black) &&
            At(b, Pos(1, 0)) == Stone(White) && At(b, Pos(0, 1)) == Stone(White) &&
            At(b, Pos(2, 0)) == Empty && At(b, Pos(1, 1)) == Empty
  {
    OpeningBoard(n);
  }

  /** White's (1,0) takes the last liberty of Black's corner stone: the stone
      leaves the board and White is credited with exactly one capture. */
  lemma CornerCapture(n: int)
    requires n > 10
    ensures var s := Opening(n);
            var r := PlayerTurn(s, 1, 0);
            s.currentTurn == Some(White) &&
            r.captures.Of(White) == 1 && r.captures.Of(Black) == 0 &&
            r.board[0][0] == Empty && r.board[0][1] == Stone(White) && r.board[1][0] == Stone(White)
  {
    var s := Opening(n);
    OpeningBoard(n);
    CornerBoard(n);
    CornerIsDoomed(Placed(s, Pos(1, 0)));
    assert Accepts(s, 1, 0);
    MoveRemovesDoomed(s, 1, 0);
    var r := PlayerTurn(s, 1, 0);
    assert At(r.board, Pos(0, 0)) == Empty;
    assert At(r.board, Pos(1, 0)) == Stone(White);
    assert At(r.board, Pos(0, 1)) == Stone(White);
  }

  /** A new game after a partly played one, with a capture, on a smaller
      board resets every field. */
  lemma RestartSupersedes()
    ensures var played := PlayerTurn(Opening(13), 1, 0);
            var r := NewGame(played, 19);
            played.captures.Of(White) == 1 &&
            r.size == 19 && r.gameType == "local" &&
            r.captures.Of(Black) == 0 && r.captures.Of(White) == 0 &&
            !r.passLastTurn && !r.gameDone && |r.board| == 19 && r.currentTurn == Some(Black) &&
            forall p :: InBounds(r.board, p) ==> At(r.board, p) == Empty
  {
    CornerCapture(13);
  }

  /** With no game started, a move leaves the record exactly as it was. */
  lemma MoveWithoutGame()
    ensures PlayerTurn(Initial, 1, 2) == Initial
  {
  }

  /** The first move of a game puts a black stone at row 2, column 1, hands
      the turn to White and leaves the pass flag clear. */
  lemma FirstMove()
    ensures var r := PlayerTurn(NewGame(Initial, 19), 1, 2);
            r.board[2][1] == Stone(Black) && r.currentTurn == Some(White) && !r.passLastTurn
  {
    assert Accepts(NewGame(Initial, 19), 1, 2);
  }

  /** One pass keeps the board, hands the turn to White and sets the pass
      flag. */
  lemma OnePass()
    ensures var s := NewGame(Initial, 19);
            var r := PassTurn(s);
            r.board == s.board && r.currentTurn == Some(White) && r.passLastTurn
  {
  }

  /** Two passes in a row end the game and clear the turn. */
  lemma TwoPasses()
    ensures var r := PassTurn(PassTurn(NewGame(Initial, 19)));
            r.currentTurn == None && r.gameDone
  {
  }

  /** A second move onto the same cell changes nothing: the black stone stays
      and White is still to move. */
  lemma OccupiedCell()
    ensures var s := PlayerTurn(NewGame(Initial, 19), 1, 1);
            var r := PlayerTurn(s, 1, 1);
            r == s && r.board[1][1] == Stone(Black) && r.currentTurn == Some(White)
  {
    var s0 := NewGame(Initial, 19);
    assert Accepts(s0, 1, 1);
    var s := PlayerTurn(s0, 1, 1);
    assert !Accepts(s, 1, 1);
  }
}
