/** The board of the game: an N x N grid of cells, each empty or holding a
    black or white stone. A move at (x, y) addresses row y, column x, so the
    cell of position p is `b[p.y][p.x]`. */
module Board {

  datatype Color = Black | White

  /** The colour that moves after (and captures against) `c`. */
  function Opponent(c: Color): (o: Color)
    ensures o != c
  {
    if c == Black then White else Black
  }

  datatype Cell = Empty | Stone(color: Color)

  /** A board coordinate: column x, row y, both zero-based. */
  datatype Pos = Pos(x: int, y: int)

  /** Rows of cells; `b[y][x]` is the cell at column x of row y. */
  type Grid = seq<seq<Cell>>

  /** Every row is as long as there are rows. */
  predicate IsSquare(b: Grid) {
    forall y :: 0 <= y < |b| ==> |b[y]| == |b|
  }

  predicate InBounds(b: Grid, p: Pos) {
    0 <= p.x < |b| && 0 <= p.y < |b|
  }

  function At(b: Grid, p: Pos): Cell
    requires IsSquare(b) && InBounds(b, p)
  {
    b[p.y][p.x]
  }

  predicate IsOccupied(b: Grid, p: Pos)
    requires IsSquare(b) && InBounds(b, p)
  {
    At(b, p).Stone?
  }

  /** Every position of the board. */
  function Cells(b: Grid): set<Pos> {
    set x, y | 0 <= x < |b| && 0 <= y < |b| :: Pos(x, y)
  }

  lemma CellsAreInBounds(b: Grid, p: Pos)
    ensures p in Cells(b) <==> InBounds(b, p)
  {
    if InBounds(b, p) {
      assert p == Pos(p.x, p.y);
    }
  }

  /** The positions holding a stone of colour `c`. */
  function StonesOf(b: Grid, c: Color): (r: set<Pos>)
    requires IsSquare(b)
    ensures forall p {:trigger p in r} :: p in r <==> InBounds(b, p) && At(b, p) == Stone(c)
  {
    set x, y | 0 <= x < |b| && 0 <= y < |b| && b[y][x] == Stone(c) :: Pos(x, y)
  }

  /** A fresh n x n board with every cell empty. */
  function NewBoard(n: nat): (b: Grid)
    ensures |b| == n && IsSquare(b)
    ensures forall p {:trigger At(b, p)} :: InBounds(b, p) ==> At(b, p) == Empty
  {
    seq(n, _ => seq(n, _ => Empty))
  }

  /** The board with cell `p` set to `c` and every other cell as it was. */
  function Place(b: Grid, p: Pos, c: Cell): (r: Grid)
    requires IsSquare(b) && InBounds(b, p)
    ensures |r| == |b| && IsSquare(r)
    ensures forall q {:trigger At(r, q)} :: InBounds(b, q) ==> At(r, q) == if q == p then c else At(b, q)
  {
    b[p.y := b[p.y][p.x := c]]
  }

  /** The board with every cell of `gone` emptied and every other cell as it
      was: how captured stones leave the board. */
  function Clear(b: Grid, gone: set<Pos>): (r: Grid)
    requires IsSquare(b)
    ensures |r| == |b| && IsSquare(r)
    ensures forall q {:trigger At(r, q)} :: InBounds(b, q) ==> At(r, q) == if q in gone then Empty else At(b, q)
  {
    seq(|b|, y requires 0 <= y < |b| =>
      seq(|b[y]|, x requires 0 <= x < |b[y]| =>
        if Pos(x, y) in gone then Empty else b[y][x]))
  }

  /** Two square boards of one size that agree on every cell are equal. */
  lemma GridExt(a: Grid, b: Grid)
    requires IsSquare(a) && IsSquare(b) && |a| == |b|
    requires forall p :: InBounds(a, p) ==> At(a, p) == At(b, p)
    ensures a == b
  {
    forall y | 0 <= y < |a|
      ensures a[y] == b[y]
    {
      forall x | 0 <= x < |a[y]|
        ensures a[y][x] == b[y][x]
      {
        assert At(a, Pos(x, y)) == At(b, Pos(x, y));
      }
    }
  }

  /** Orthogonal adjacency: the positions differ by one step in exactly one
      coordinate. There is no diagonal adjacency. */
  predicate Adjacent(p: Pos, q: Pos) {
    (p.x == q.x && (p.y - q.y == 1 || q.y - p.y == 1)) ||
    (p.y == q.y && (p.x - q.x == 1 || q.x - p.x == 1))
  }

  /** The in-bounds orthogonal neighbours of `p`: left, right, above, below. */
  function Neighbors(b: Grid, p: Pos): (r: seq<Pos>)
    ensures forall q {:trigger q in r} :: q in r <==> InBounds(b, q) && Adjacent(p, q)
    ensures |r| <= 4
  {
    var left := Pos(p.x - 1, p.y);
    var right := Pos(p.x + 1, p.y);
    var up := Pos(p.x, p.y - 1);
    var down := Pos(p.x, p.y + 1);
    (if InBounds(b, left) then [left] else []) +
    (if InBounds(b, right) then [right] else []) +
    (if InBounds(b, up) then [up] else []) +
    (if InBounds(b, down) then [down] else [])
  }

  /** A corner has two neighbours, an edge cell three and an interior cell
      four. */
  lemma NeighborCount(b: Grid, p: Pos)
    requires InBounds(b, p)
    ensures var onEdgeX := p.x == 0 || p.x == |b| - 1;
            var onEdgeY := p.y == 0 || p.y == |b| - 1;
            |b| > 1 ==>
              |Neighbors(b, p)| == 4 - (if onEdgeX then 1 else 0) - (if onEdgeY then 1 else 0)
  {
  }
}
