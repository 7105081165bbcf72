/** Groups and liberties. A group is a maximal set of same-coloured stones
    joined by orthogonal adjacency; it is computed by a worklist flood fill
    from a seed stone, and proved equal to the set of cells a same-coloured
    chain from the seed can reach. The liberties of a group are the empty
    cells next to any of its stones. */
module Groups {
  import opened Board

  /** A non-empty walk over in-bounds cells that all hold `col`, each step
      going to an orthogonal neighbour. */
  ghost predicate IsChain(b: Grid, col: Cell, path: seq<Pos>)
    requires IsSquare(b)
  {
    && |path| > 0
    && (forall i :: 0 <= i < |path| ==> InBounds(b, path[i]) && At(b, path[i]) == col)
    && (forall i, j :: 0 <= i && j == i + 1 && j < |path| ==> Adjacent(path[i], path[j]))
  }

  /** Some chain of colour `col` leads from `p` to `q`. */
  ghost predicate Connected(b: Grid, col: Cell, p: Pos, q: Pos)
    requires IsSquare(b)
  {
    exists path :: IsChain(b, col, path) && path[0] == p && path[|path| - 1] == q
  }

  lemma ConnectedRefl(b: Grid, col: Cell, p: Pos)
    requires IsSquare(b) && InBounds(b, p) && At(b, p) == col
    ensures Connected(b, col, p, p)
  {
    assert IsChain(b, col, [p]);
  }

  /** A chain extends by one step to a same-coloured neighbour. */
  lemma ConnectedStep(b: Grid, col: Cell, p: Pos, q: Pos, r: Pos)
    requires IsSquare(b) && Connected(b, col, p, q)
    requires InBounds(b, r) && At(b, r) == col && Adjacent(q, r)
    ensures Connected(b, col, p, r)
  {
    var path :| IsChain(b, col, path) && path[0] == p && path[|path| - 1] == q;
    var longer := path + [r];
    forall i, j | 0 <= i && j == i + 1 && j < |longer|
      ensures Adjacent(longer[i], longer[j])
    {
      if j < |path| {
        assert Adjacent(path[i], path[j]);
      }
    }
    assert IsChain(b, col, longer);
  }

  lemma ConnectedSymmetric(b: Grid, col: Cell, p: Pos, q: Pos)
    requires IsSquare(b) && Connected(b, col, p, q)
    ensures Connected(b, col, q, p)
  {
    var path :| IsChain(b, col, path) && path[0] == p && path[|path| - 1] == q;
    var n := |path|;
    var back := seq(n, i requires 0 <= i < n => path[n - 1 - i]);
    forall i, j | 0 <= i && j == i + 1 && j < n
      ensures Adjacent(back[i], back[j])
    {
      assert Adjacent(path[n - 1 - j], path[n - 1 - i]);
    }
    assert IsChain(b, col, back);
  }

  lemma ConnectedTransitive(b: Grid, col: Cell, p: Pos, q: Pos, r: Pos)
    requires IsSquare(b) && Connected(b, col, p, q) && Connected(b, col, q, r)
    ensures Connected(b, col, p, r)
  {
    var first :| IsChain(b, col, first) && first[0] == p && first[|first| - 1] == q;
    var second :| IsChain(b, col, second) && second[0] == q && second[|second| - 1] == r;
    var path := first + second[1..];
    forall i, j | 0 <= i && j == i + 1 && j < |path|
      ensures Adjacent(path[i], path[j])
    {
      if j < |first| {
        assert Adjacent(first[i], first[j]);
      } else {
        var k := i - |first| + 1;
        assert path[i] == second[k] && path[j] == second[k + 1];
        assert Adjacent(second[k], second[k + 1]);
      }
    }
    assert IsChain(b, col, path);
  }

  /** `s` is closed under same-coloured adjacency: every neighbour of a
      member that holds `col` is a member. */
  ghost predicate Closed(b: Grid, col: Cell, s: set<Pos>)
    requires IsSquare(b)
  {
    forall p, q {:trigger q in Neighbors(b, p), p in s} :: p in s && q in Neighbors(b, p) && At(b, q) == col ==> q in s
  }

  /** A closed set that holds the seed holds every cell a chain from the
      seed reaches. */
  lemma ClosedHoldsConnected(b: Grid, col: Cell, s: set<Pos>, seed: Pos, p: Pos)
    requires IsSquare(b) && seed in s && Closed(b, col, s)
    requires Connected(b, col, seed, p)
    ensures p in s
  {
    var path :| IsChain(b, col, path) && path[0] == seed && path[|path| - 1] == p;
    var i := 0;
    while i < |path| - 1
      invariant 0 <= i < |path|
      invariant path[i] in s
    {
      assert Adjacent(path[i], path[i + 1]);
      assert path[i + 1] in Neighbors(b, path[i]);
      i := i + 1;
    }
  }

  /** Every same-coloured neighbour of `v` lies in `s`: the flood fill has
      nothing left to add from `v`. */
  ghost predicate Saturated(b: Grid, col: Cell, v: Pos, s: set<Pos>)
    requires IsSquare(b)
  {
    forall q {:trigger q in Neighbors(b, v)} :: q in Neighbors(b, v) && At(b, q) == col ==> q in s
  }

  /** Removing a non-empty part of the unvisited cells makes the unvisited
      set strictly smaller: the flood fill's termination measure. */
  lemma FewerUnvisited(all: set<Pos>, visited: set<Pos>, q: Pos, visited': set<Pos>)
    requires q in all && q !in visited && q in visited' && visited <= visited'
    ensures |all - visited'| < |all - visited|
  {
    var before := all - visited;
    var after := all - visited';
    var rest := (before - {q}) - after;
    assert before - {q} == after + rest;
    assert after * rest == {};
  }

  /** The members of `ns` that hold `col` and have not been visited, in order. */
  function Unvisited(b: Grid, col: Cell, ns: seq<Pos>, visited: set<Pos>): (found: seq<Pos>)
    requires IsSquare(b)
    requires forall q :: q in ns ==> InBounds(b, q)
    ensures forall q :: q in found <==> q in ns && At(b, q) == col && q !in visited
  {
    if ns == [] then []
    else
      (if At(b, ns[0]) == col && ns[0] !in visited then [ns[0]] else []) +
      Unvisited(b, col, ns[1..], visited)
  }

  /** `s` lies inside every closed set that holds the seed. */
  ghost predicate Reached(b: Grid, col: Cell, seed: Pos, s: set<Pos>)
    requires IsSquare(b)
  {
    forall t {:trigger Closed(b, col, t)} :: seed in t && Closed(b, col, t) ==> s <= t
  }

  /** The flood fill's invariant: every visited cell holds `col` and lies
      in every closed set holding the seed, every stacked cell is visited,
      and every visited cell off the stack is saturated. */
  ghost predicate FillInv(b: Grid, col: Cell, stack: seq<Pos>, visited: set<Pos>, seed: Pos)
    requires IsSquare(b)
  {
    && (forall v :: v in visited ==> InBounds(b, v) && At(b, v) == col)
    && Reached(b, col, seed, visited)
    && (forall v :: v in stack ==> v in visited)
    && (forall v :: v in visited && v !in stack ==> Saturated(b, col, v, visited))
  }

  /** Popping `p` when it has no unvisited same-coloured neighbour keeps
      the invariant. */
  lemma PopKeepsInvariant(b: Grid, col: Cell, rest: seq<Pos>, p: Pos, visited: set<Pos>, seed: Pos)
    requires IsSquare(b) && FillInv(b, col, rest + [p], visited, seed)
    requires Unvisited(b, col, Neighbors(b, p), visited) == []
    ensures FillInv(b, col, rest, visited, seed)
  {
    forall v | v in visited && v !in rest
      ensures Saturated(b, col, v, visited)
    {
      if v != p {
        assert v !in rest + [p];
      }
    }
  }

  /** Popping `p` and pushing its unvisited same-coloured neighbours `found`
      keeps the invariant. */
  lemma PushKeepsInvariant(b: Grid, col: Cell, rest: seq<Pos>, p: Pos, visited: set<Pos>,
                           found: seq<Pos>, visited': set<Pos>, seed: Pos)
    requires IsSquare(b) && FillInv(b, col, rest + [p], visited, seed)
    requires found == Unvisited(b, col, Neighbors(b, p), visited)
    requires visited' == visited + set q | q in found
    ensures FillInv(b, col, rest + found, visited', seed)
  {
    assert p in rest + [p];
    forall t | seed in t && Closed(b, col, t)
      ensures visited' <= t
    {
      forall q | q in found
        ensures q in t
      {
        assert p in t && q in Neighbors(b, p);
      }
    }
    forall v | v in visited' && v !in rest + found
      ensures Saturated(b, col, v, visited')
    {
      assert v !in found;
      if v != p {
        assert v !in rest + [p];
        assert Saturated(b, col, v, visited);
      } else {
        forall q | q in Neighbors(b, p) && At(b, q) == col
          ensures q in visited'
        {
          if q !in visited {
            assert q in found;
          }
        }
      }
    }
  }

  /** With nothing left on the stack, the visited set is closed. */
  lemma EmptyStackClosed(b: Grid, col: Cell, visited: set<Pos>, seed: Pos)
    requires IsSquare(b) && FillInv(b, col, [], visited, seed)
    ensures Closed(b, col, visited)
  {
    forall p, q | p in visited && q in Neighbors(b, p) && At(b, q) == col
      ensures q in visited
    {
      assert Saturated(b, col, p, visited);
    }
  }

  /** Worklist flood fill. `visited` holds the cells found so far; `stack`
      holds the visited cells whose neighbours are still to be examined.
      Each step pops one cell and pushes and marks its unvisited
      same-coloured neighbours. The fill ends when the stack is empty; it
      terminates because every push shrinks the set of unvisited cells of
      the board, and every pop without a push shortens the stack. */
  function Fill(b: Grid, col: Cell, stack: seq<Pos>, visited: set<Pos>, ghost seed: Pos): (g: set<Pos>)
    requires IsSquare(b)
    requires FillInv(b, col, stack, visited, seed)
    ensures visited <= g
    ensures forall v {:trigger v in g} :: v in g ==> InBounds(b, v) && At(b, v) == col
    ensures Reached(b, col, seed, g)
    ensures Closed(b, col, g)
    decreases |Cells(b) - visited|, |stack|
  {
    if stack == [] then
      EmptyStackClosed(b, col, visited, seed);
      visited
    else
      var p := stack[|stack| - 1];
      var rest := stack[..|stack| - 1];
      assert stack == rest + [p];
      var found := Unvisited(b, col, Neighbors(b, p), visited);
      if found == [] then
        PopKeepsInvariant(b, col, rest, p, visited, seed);
        Fill(b, col, rest, visited, seed)
      else
        var visited' := visited + set q | q in found;
        PushKeepsInvariant(b, col, rest, p, visited, found, visited', seed);
        CellsAreInBounds(b, found[0]);
        FewerUnvisited(Cells(b), visited, found[0], visited');
        Fill(b, col, rest + found, visited', seed)
  }

  /** The group of the stone (or empty region) at `seed`: the cells of the
      seed's colour that the flood fill from the seed reaches. */
  function Group(b: Grid, seed: Pos): (g: set<Pos>)
    requires IsSquare(b) && InBounds(b, seed)
    ensures seed in g
    ensures forall p {:trigger p in g} :: p in g ==> InBounds(b, p) && At(b, p) == At(b, seed)
  {
    Fill(b, At(b, seed), [seed], {seed}, seed)
  }

  /** The group is closed under same-coloured adjacency. */
  lemma GroupClosed(b: Grid, seed: Pos)
    requires IsSquare(b) && InBounds(b, seed)
    ensures Closed(b, At(b, seed), Group(b, seed))
  {
    assert Group(b, seed) == Fill(b, At(b, seed), [seed], {seed}, seed);
  }

  /** The group is the least closed set that holds the seed. */
  lemma ClosedHoldsGroup(b: Grid, seed: Pos, s: set<Pos>)
    requires IsSquare(b) && InBounds(b, seed) && seed in s
    requires Closed(b, At(b, seed), s)
    ensures Group(b, seed) <= s
  {
    assert Reached(b, At(b, seed), seed, Group(b, seed));
  }

  /** The group of `seed` is exactly the set of cells a chain of the seed's
      colour reaches from the seed. */
  lemma GroupIsComponent(b: Grid, seed: Pos, p: Pos)
    requires IsSquare(b) && InBounds(b, seed)
    ensures p in Group(b, seed) <==> Connected(b, At(b, seed), seed, p)
  {
    var col := At(b, seed);
    if Connected(b, col, seed, p) {
      GroupClosed(b, seed);
      ClosedHoldsConnected(b, col, Group(b, seed), seed, p);
    }
    if p in Group(b, seed) {
      var reach := set x | x in Cells(b) && Connected(b, col, seed, x);
      assert seed in reach by {
        ConnectedRefl(b, col, seed);
        CellsAreInBounds(b, seed);
      }
      forall x, y | x in reach && y in Neighbors(b, x) && At(b, y) == col
        ensures y in reach
      {
        ConnectedStep(b, col, seed, x, y);
        CellsAreInBounds(b, y);
      }
      ClosedHoldsGroup(b, seed, reach);
    }
  }

  /** A same-coloured neighbour of a group member is in the group. */
  lemma GroupAbsorbsNeighbor(b: Grid, seed: Pos, p: Pos, q: Pos)
    requires IsSquare(b) && InBounds(b, seed)
    requires p in Group(b, seed)
    requires InBounds(b, q) && Adjacent(p, q) && At(b, q) == At(b, seed)
    ensures q in Group(b, seed)
  {
    assert q in Neighbors(b, p);
  }

  /** Groups partition the board: the group of any member is the whole
      group. */
  lemma GroupOfMember(b: Grid, seed: Pos, p: Pos)
    requires IsSquare(b) && InBounds(b, seed)
    requires p in Group(b, seed)
    ensures Group(b, p) == Group(b, seed)
  {
    var col := At(b, seed);
    assert Group(b, p) <= Group(b, seed) by {
      GroupClosed(b, seed);
      ClosedHoldsGroup(b, p, Group(b, seed));
    }
    assert seed in Group(b, p) by {
      GroupIsComponent(b, seed, p);
      ConnectedSymmetric(b, col, seed, p);
      GroupIsComponent(b, p, seed);
    }
    assert Group(b, seed) <= Group(b, p) by {
      GroupClosed(b, p);
      ClosedHoldsGroup(b, seed, Group(b, p));
    }
  }

  /** The liberties of a set of stones: the empty cells orthogonally next to
      at least one of them. */
  function Liberties(b: Grid, g: set<Pos>): (libs: set<Pos>)
    requires IsSquare(b)
    ensures forall q {:trigger q in libs} :: q in libs <==>
      InBounds(b, q) && At(b, q) == Empty && exists p :: p in g && Adjacent(p, q)
  {
    var libs := set p, q {:trigger q in Neighbors(b, p), p in g} | p in g && q in Neighbors(b, p) && At(b, q) == Empty :: q;
    assert forall q :: InBounds(b, q) && At(b, q) == Empty && (exists p :: p in g && Adjacent(p, q)) ==> q in libs by {
      forall q | InBounds(b, q) && At(b, q) == Empty && exists p :: p in g && Adjacent(p, q)
        ensures q in libs
      {
        var p :| p in g && Adjacent(p, q);
        assert q in Neighbors(b, p);
      }
    }
    libs
  }
}
