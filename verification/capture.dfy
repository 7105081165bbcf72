/** Capture of the groups next to a freshly placed stone. The operational
    definition visits the neighbours of the move one after the other, each
    time on the board left by the previous removals, and removes a victim
    group found without liberties, adding its size to the tally. The
    declarative definition takes, on the board as it was right after the
    stone was placed, the union of every adjacent victim group without
    liberties. The two are proved to agree, so the order in which neighbours
    are visited does not matter and no stone is counted twice. */
module Capture {
  import opened Board
  import opened Groups

  /** The cell `q` holds a stone of colour `victim` whose group has no
      liberty. */
  predicate Dead(b: Grid, victim: Color, q: Pos)
    requires IsSquare(b)
  {
    InBounds(b, q) && At(b, q) == Stone(victim) && Liberties(b, Group(b, q)) == {}
  }

  /** Going from `b` to `c` (of one size), every cell either keeps its
      content or loses a stone of colour `victim`: capture never turns a
      stone into the other colour and never fills an empty cell. */
  ghost predicate Vanishes(b: Grid, c: Grid, victim: Color)
    requires IsSquare(b) && IsSquare(c) && |c| == |b|
  {
    forall q {:trigger At(c, q)} :: InBounds(b, q) ==>
      At(c, q) == At(b, q) || (At(b, q) == Stone(victim) && At(c, q) == Empty)
  }

  /** Examines one neighbour: removes its group if it is dead and reports how
      many stones were removed. */
  function CaptureAt(b: Grid, victim: Color, q: Pos): (r: (Grid, nat))
    requires IsSquare(b)
    ensures |r.0| == |b| && IsSquare(r.0)
  {
    if Dead(b, victim, q) then
      var g := Group(b, q);
      (Clear(b, g), |g|)
    else
      (b, 0)
  }

  /** Examines the neighbours `qs` in order, each on the board the previous
      ones left, and sums the stones removed. */
  function CaptureAll(b: Grid, victim: Color, qs: seq<Pos>): (r: (Grid, nat))
    requires IsSquare(b)
    ensures |r.0| == |b| && IsSquare(r.0)
    decreases |qs|
  {
    if qs == [] then (b, 0)
    else
      var step := CaptureAt(b, victim, qs[0]);
      var tail := CaptureAll(step.0, victim, qs[1..]);
      (tail.0, step.1 + tail.1)
  }

  /** One step only removes victim stones, and reports how many. */
  lemma CaptureAtFrame(b: Grid, victim: Color, q: Pos)
    requires IsSquare(b)
    ensures var r := CaptureAt(b, victim, q);
            Vanishes(b, r.0, victim) &&
            r.1 + |StonesOf(r.0, victim)| == |StonesOf(b, victim)| &&
            StonesOf(r.0, Opponent(victim)) == StonesOf(b, Opponent(victim))
  {
    if Dead(b, victim, q) {
      ClearCounts(b, victim, Group(b, q));
    }
  }

  /** The sequential capture only ever empties cells that held a victim
      stone, leaves the other colour's stones in place, and the count it
      reports is exactly the number of victim stones that left the board. */
  lemma {:induction false} CaptureAllFrame(b: Grid, victim: Color, qs: seq<Pos>)
    requires IsSquare(b)
    ensures var r := CaptureAll(b, victim, qs);
            Vanishes(b, r.0, victim) &&
            r.1 + |StonesOf(r.0, victim)| == |StonesOf(b, victim)| &&
            StonesOf(r.0, Opponent(victim)) == StonesOf(b, Opponent(victim))
    decreases |qs|
  {
    if qs != [] {
      var step := CaptureAt(b, victim, qs[0]);
      CaptureAtFrame(b, victim, qs[0]);
      CaptureAllFrame(step.0, victim, qs[1..]);
    }
  }

  /** Every stone of a dead group next to one of `qs`, all judged on the one
      board `b`. */
  function Doomed(b: Grid, victim: Color, qs: seq<Pos>): (d: set<Pos>)
    requires IsSquare(b)
    ensures d <= StonesOf(b, victim)
  {
    set q, p {:trigger p in Group(b, q), q in qs} | q in qs && Dead(b, victim, q) && p in Group(b, q) :: p
  }

  /** `d` consists of whole groups of colour `victim`. */
  ghost predicate WholeGroups(b: Grid, victim: Color, d: set<Pos>)
    requires IsSquare(b)
  {
    && (forall x {:trigger x in d} :: x in d ==> InBounds(b, x) && At(b, x) == Stone(victim))
    && (forall x, y {:trigger y in Group(b, x), x in d} :: x in d && y in Group(b, x) ==> y in d)
  }

  lemma DoomedIsWholeGroups(b: Grid, victim: Color, qs: seq<Pos>)
    requires IsSquare(b)
    ensures WholeGroups(b, victim, Doomed(b, victim, qs))
  {
    var d := Doomed(b, victim, qs);
    forall x, y | x in d && y in Group(b, x)
      ensures y in d
    {
      var q :| q in qs && Dead(b, victim, q) && x in Group(b, q);
      GroupOfMember(b, q, x);
    }
  }

  /** Extending the examined neighbours by one adds that neighbour's group
      when it is dead, and nothing otherwise. */
  lemma DoomedSnoc(b: Grid, victim: Color, qs: seq<Pos>, q: Pos)
    requires IsSquare(b)
    ensures Doomed(b, victim, qs + [q]) == Doomed(b, victim, qs) + Gain(b, victim, q)
  {
    var longer := Doomed(b, victim, qs + [q]);
    var parts := Doomed(b, victim, qs) + Gain(b, victim, q);
    forall p | p in longer
      ensures p in parts
    {
      var q' :| q' in qs + [q] && Dead(b, victim, q') && p in Group(b, q');
      if q' in qs {
        assert p in Doomed(b, victim, qs);
      }
    }
    forall p | p in parts
      ensures p in longer
    {
      if p in Doomed(b, victim, qs) {
        var q' :| q' in qs && Dead(b, victim, q') && p in Group(b, q');
        assert q' in qs + [q];
      } else {
        assert q in qs + [q];
      }
    }
  }

  /** A group that misses a set of whole groups misses it entirely. */
  lemma GroupAvoidsWholeGroups(b: Grid, victim: Color, d: set<Pos>, q: Pos)
    requires IsSquare(b) && WholeGroups(b, victim, d)
    requires InBounds(b, q) && q !in d
    ensures forall x :: x in Group(b, q) ==> x !in d
  {
    forall x | x in Group(b, q) && x in d
      ensures false
    {
      GroupOfMember(b, q, x);
    }
  }

  /** Emptying cells can only shrink a group. */
  lemma ClearShrinksGroup(b: Grid, d: set<Pos>, q: Pos)
    requires IsSquare(b) && InBounds(b, q) && At(b, q).Stone?
    requires q !in d
    ensures Group(Clear(b, d), q) <= Group(b, q)
  {
    var bc := Clear(b, d);
    var col := At(b, q);
    var g := Group(b, q);
    forall p, r | p in g && r in Neighbors(bc, p) && At(bc, r) == col
      ensures r in g
    {
      assert r in Neighbors(b, p);
    }
    ClosedHoldsGroup(bc, q, g);
  }

  /** Emptying cells outside a stone's group leaves the group as it was. */
  lemma ClearKeepsOtherGroup(b: Grid, d: set<Pos>, q: Pos)
    requires IsSquare(b) && InBounds(b, q) && At(b, q).Stone?
    requires forall x :: x in Group(b, q) ==> x !in d
    ensures Group(Clear(b, d), q) == Group(b, q)
  {
    var bc := Clear(b, d);
    var col := At(b, q);
    var g' := Group(bc, q);
    ClearShrinksGroup(b, d, q);
    forall p, r | p in g' && r in Neighbors(b, p) && At(b, r) == col
      ensures r in g'
    {
      assert r in Neighbors(bc, p);
    }
    ClosedHoldsGroup(b, q, g');
  }

  /** Emptying cells keeps every liberty: an empty cell stays empty. */
  lemma ClearKeepsLiberties(b: Grid, d: set<Pos>, g: set<Pos>)
    requires IsSquare(b)
    requires forall x :: x in d ==> InBounds(b, x) && At(b, x).Stone?
    ensures Liberties(b, g) <= Liberties(Clear(b, d), g)
  {
    forall r | r in Liberties(b, g)
      ensures r in Liberties(Clear(b, d), g)
    {
      var p :| p in g && Adjacent(p, r);
      assert r !in d;
    }
  }

  /** Emptying victim stones outside a victim group gives that group no new
      liberty: a victim stone next to the group would belong to it. */
  lemma ClearAddsNoLiberty(b: Grid, victim: Color, d: set<Pos>, q: Pos)
    requires IsSquare(b) && d <= StonesOf(b, victim)
    requires InBounds(b, q) && At(b, q) == Stone(victim)
    requires forall x :: x in Group(b, q) ==> x !in d
    ensures Liberties(Clear(b, d), Group(b, q)) <= Liberties(b, Group(b, q))
  {
    var bc := Clear(b, d);
    var g := Group(b, q);
    forall r | r in Liberties(bc, g)
      ensures r in Liberties(b, g)
    {
      var p :| p in g && Adjacent(p, r);
      if r in d {
        assert r in StonesOf(b, victim);
        GroupAbsorbsNeighbor(b, q, p, r);
      }
    }
  }

  /** Emptying victim stones outside a victim group leaves its liberties
      exactly as they were. */
  lemma ClearKeepsOtherLiberties(b: Grid, victim: Color, d: set<Pos>, q: Pos)
    requires IsSquare(b) && d <= StonesOf(b, victim)
    requires InBounds(b, q) && At(b, q) == Stone(victim)
    requires forall x :: x in Group(b, q) ==> x !in d
    ensures Liberties(Clear(b, d), Group(b, q)) == Liberties(b, Group(b, q))
  {
    ClearAddsNoLiberty(b, victim, d, q);
    ClearKeepsLiberties(b, d, Group(b, q));
  }

  /** Two successive clearings are one clearing of the union. */
  lemma ClearTwice(b: Grid, d: set<Pos>, e: set<Pos>)
    requires IsSquare(b)
    ensures Clear(Clear(b, d), e) == Clear(b, d + e)
  {
    GridExt(Clear(Clear(b, d), e), Clear(b, d + e));
  }

  lemma ClearNothing(b: Grid)
    requires IsSquare(b)
    ensures Clear(b, {}) == b
  {
    GridExt(Clear(b, {}), b);
  }

  /** Neighbour `q` is dead on the original board and not yet removed: the
      step removes its whole group, disjoint from what is already gone. */
  lemma StepRemovesDeadGroup(b: Grid, victim: Color, d: set<Pos>, q: Pos)
    requires IsSquare(b) && WholeGroups(b, victim, d)
    requires Dead(b, victim, q) && q !in d
    ensures CaptureAt(Clear(b, d), victim, q) == (Clear(b, d + Group(b, q)), |Group(b, q)|)
    ensures |d + Group(b, q)| == |d| + |Group(b, q)|
  {
    var g := Group(b, q);
    assert forall x :: x in g ==> x !in d by {
      GroupAvoidsWholeGroups(b, victim, d, q);
    }
    assert Group(Clear(b, d), q) == g by {
      ClearKeepsOtherGroup(b, d, q);
    }
    assert Liberties(Clear(b, d), g) == {} by {
      assert d <= StonesOf(b, victim);
      ClearKeepsOtherLiberties(b, victim, d, q);
    }
    assert Dead(Clear(b, d), victim, q);
    ClearTwice(b, d, g);
    assert d * g == {};
  }

  /** Neighbour `q` is a victim stone not yet removed whose group breathes
      on the original board: the step removes nothing. */
  lemma StepSparesLiveGroup(b: Grid, victim: Color, d: set<Pos>, q: Pos)
    requires IsSquare(b) && WholeGroups(b, victim, d)
    requires InBounds(b, q) && At(b, q) == Stone(victim) && q !in d && !Dead(b, victim, q)
    ensures CaptureAt(Clear(b, d), victim, q) == (Clear(b, d), 0)
  {
    var g := Group(b, q);
    assert forall x :: x in g ==> x !in d by {
      GroupAvoidsWholeGroups(b, victim, d, q);
    }
    assert Group(Clear(b, d), q) == g by {
      ClearKeepsOtherGroup(b, d, q);
    }
    assert Liberties(Clear(b, d), g) != {} by {
      assert d <= StonesOf(b, victim);
      ClearKeepsOtherLiberties(b, victim, d, q);
    }
  }

  /** What neighbour `q` adds to the doomed stones: its group if dead. */
  function Gain(b: Grid, victim: Color, q: Pos): (g: set<Pos>)
    requires IsSquare(b)
  {
    if Dead(b, victim, q) then Group(b, q) else {}
  }

  /** Neighbour `q` holds no victim stone once `d` is gone: the step removes
      nothing, and if `q` was dead its group is already part of `d`. */
  lemma StepSkipsNonVictim(b: Grid, victim: Color, d: set<Pos>, q: Pos)
    requires IsSquare(b) && WholeGroups(b, victim, d)
    requires !(InBounds(b, q) && At(Clear(b, d), q) == Stone(victim))
    ensures CaptureAt(Clear(b, d), victim, q) == (Clear(b, d), 0)
    ensures d + Gain(b, victim, q) == d
  {
    assert !Dead(Clear(b, d), victim, q);
    if Dead(b, victim, q) {
      assert q in d;
      assert Group(b, q) <= d;
    }
  }

  /** One step of the sequential capture, taken once the whole victim groups
      `d` are gone, removes exactly what neighbour `q` adds to them: its group
      when that group is dead on the original board, nothing otherwise. */
  lemma CaptureAtStep(b: Grid, victim: Color, d: set<Pos>, q: Pos)
    requires IsSquare(b) && WholeGroups(b, victim, d)
    ensures CaptureAt(Clear(b, d), victim, q).0 == Clear(b, d + Gain(b, victim, q))
    ensures |d| + CaptureAt(Clear(b, d), victim, q).1 == |d + Gain(b, victim, q)|
  {
    var c := Clear(b, d);
    var e := d + Gain(b, victim, q);
    if InBounds(b, q) && At(c, q) == Stone(victim) {
      assert q !in d;
      if Dead(b, victim, q) {
        assert CaptureAt(c, victim, q).0 == Clear(b, e) && |d| + CaptureAt(c, victim, q).1 == |e| by {
          StepRemovesDeadGroup(b, victim, d, q);
        }
      } else {
        assert CaptureAt(c, victim, q) == (c, 0) && e == d by {
          StepSparesLiveGroup(b, victim, d, q);
        }
      }
    } else {
      assert CaptureAt(c, victim, q) == (c, 0) && e == d by {
        StepSkipsNonVictim(b, victim, d, q);
      }
    }
  }

  lemma CaptureSuffix(b: Grid, victim: Color, qs: seq<Pos>, i: int)
    requires IsSquare(b) && 0 <= i <= |qs|
    ensures var d := Doomed(b, victim, qs[..i]);
            var r := CaptureAll(Clear(b, d), victim, qs[i..]);
            r.0 == Clear(b, Doomed(b, victim, qs)) && |d| + r.1 == |Doomed(b, victim, qs)|
    decreases |qs| - i
  {
    if i == |qs| {
      assert qs[..i] == qs;
    } else {
      var d := Doomed(b, victim, qs[..i]);
      assert qs[..i + 1] == qs[..i] + [qs[i]];
      DoomedSnoc(b, victim, qs[..i], qs[i]);
      DoomedIsWholeGroups(b, victim, qs[..i]);
      CaptureAtStep(b, victim, d, qs[i]);
      CaptureSuffix(b, victim, qs, i + 1);
      assert qs[i..][1..] == qs[i + 1..];
    }
  }

  /** The sequential capture removes exactly the doomed stones, the union of
      the dead victim groups next to the move judged on the placed board, and
      reports exactly how many there are. */
  lemma {:induction false} CaptureAllRemovesDoomed(b: Grid, victim: Color, qs: seq<Pos>)
    requires IsSquare(b)
    ensures CaptureAll(b, victim, qs).0 == Clear(b, Doomed(b, victim, qs))
    ensures CaptureAll(b, victim, qs).1 == |Doomed(b, victim, qs)|
  {
    CaptureSuffix(b, victim, qs, 0);
    assert qs[..0] == [] && qs[0..] == qs;
    ClearNothing(b);
  }

  /** The group of a dead neighbour is doomed. */
  lemma DeadGroupDoomed(b: Grid, victim: Color, qs: seq<Pos>, q: Pos)
    requires IsSquare(b) && q in qs && Dead(b, victim, q)
    ensures Group(b, q) <= Doomed(b, victim, qs)
  {
    forall p | p in Group(b, q)
      ensures p in Doomed(b, victim, qs)
    {
      assert q in qs && Dead(b, victim, q) && p in Group(b, q);
    }
  }

  /** When every dead neighbour among `qs` lies in the group of one dead
      neighbour `q`, the doomed stones are exactly that group. */
  lemma DoomedOneGroup(b: Grid, victim: Color, qs: seq<Pos>, q: Pos)
    requires IsSquare(b) && q in qs && Dead(b, victim, q)
    requires forall q' :: q' in qs && Dead(b, victim, q') ==> q' in Group(b, q)
    ensures Doomed(b, victim, qs) == Group(b, q)
  {
    DoomedWithinGroup(b, victim, qs, q);
    DeadGroupDoomed(b, victim, qs, q);
  }

  lemma DoomedWithinGroup(b: Grid, victim: Color, qs: seq<Pos>, q: Pos)
    requires IsSquare(b) && InBounds(b, q)
    requires forall q' :: q' in qs && Dead(b, victim, q') ==> q' in Group(b, q)
    ensures Doomed(b, victim, qs) <= Group(b, q)
  {
    forall p | p in Doomed(b, victim, qs)
      ensures p in Group(b, q)
    {
      var q' :| q' in qs && Dead(b, victim, q') && p in Group(b, q');
      GroupOfMember(b, q, q');
    }
  }

  /** After the doomed stones are cleared, every victim stone still standing
      next to one of `qs` belongs to a group with at least one liberty. */
  lemma SurvivorsBreathe(b: Grid, victim: Color, qs: seq<Pos>, q: Pos)
    requires IsSquare(b) && q in qs && InBounds(b, q)
    requires At(Clear(b, Doomed(b, victim, qs)), q) == Stone(victim)
    ensures Liberties(Clear(b, Doomed(b, victim, qs)), Group(Clear(b, Doomed(b, victim, qs)), q)) != {}
  {
    var d := Doomed(b, victim, qs);
    DoomedIsWholeGroups(b, victim, qs);
    GroupAvoidsWholeGroups(b, victim, d, q);
    ClearKeepsOtherGroup(b, d, q);
    ClearKeepsOtherLiberties(b, victim, d, q);
    assert !Dead(b, victim, q);
  }

  /** Clearing victim stones takes exactly that many from the victim and
      nothing from the other colour. */
  lemma ClearCounts(b: Grid, victim: Color, d: set<Pos>)
    requires IsSquare(b) && d <= StonesOf(b, victim)
    ensures |StonesOf(Clear(b, d), victim)| == |StonesOf(b, victim)| - |d|
    ensures StonesOf(Clear(b, d), Opponent(victim)) == StonesOf(b, Opponent(victim))
  {
    assert StonesOf(Clear(b, d), victim) == StonesOf(b, victim) - d;
  }
}
